# gff3toembl: the EMBL flat-file renderer, modelled in Dafny

gff3toembl turns a GFF3 annotation file into an EMBL flat file for submission
to the European Nucleotide Archive. This project models the part that writes
the text:

- the `Convert` class, which renders each piece of an entry:
  - the ID/AC/PR/DE/RN/RA/RT/RL/FH header;
  - the `source` feature;
  - one feature's key line and its qualifiers, which are rewritten, split on
    commas, wrapped at 58 columns and indented by the 21-column `FT` gutter;
  - the `SQ` line;
  - the sequence body: 60 lower-case bases a line, in groups of ten, each line
    closed by a right-justified base counter.
- the two `EMBLWriter` methods that build whole files:
  - `create_output_file` writes one entry per sequence, in sorted order of the
    sequence names.
  - `create_chromosome_list` reads the `AC * _name` lines of the written file
    back. It lists each name with its 1-based number, the first as `Chromosome`
    and every later one as `Plasmid`.

Modules, one per file:

| file | module | contents |
|---|---|---|
| `text.dfy` | `Text` | The Python string operations the source relies on: `lower`, `count`, `%d`, `%9s`, `split`, `replace`, `re.sub(r'\W+', '', …)`, `readlines`. |
| `wrap.dfy` | `TextWrap` | A greedy model of `textwrap.wrap`. |
| `sequence.dfy` | `SequenceFormat` | `sequence_header`, `sequence_body` and `construct_sequence`. |
| `attributes.dfy` | `Attributes` | The qualifier writers: `update_locus_tag`, `search_hypo_protein`, `update_inference_to_db_xref`, `create_multi_line_feature_attribute_string` and `construct_feature_attribute`. |
| `features.dfy` | `Features` | `feature_header` and `construct_feature`. |
| `header.dfy` | `Header` | `populated_header` (with `blank_header`) and `source_template`. |
| `writer.dfy` | `Writer` | `create_output_file` and `create_chromosome_list`. |

Both `Convert` and `EMBLWriter` are modelled as values. `Convert` only reads
its two fields (`locus_tag`, `translation_table`), so it is the datatype
`Attributes.Converter`. The class dictionaries become module constants.

Source functions that loop are modelled as methods with loop invariants:
- `sequence_body`;
- `search_hypo_protein`;
- `update_inference_to_db_xref`;
- `create_multi_line_feature_attribute_string`;
- `construct_feature_attribute`;
- `construct_feature`;
- `create_output_file` (with `sorted`);
- `create_chromosome_list`.

Each method is proved equal to a specification function. The source's
promises are proved about those functions as lemmas. The straight-line
renderers (`sequence_header`, `feature_header`, `populated_header`,
`source_template`, `update_locus_tag`) are functions.

Files become strings:
- `create_output_file` returns the text it would write.
- `create_chromosome_list` takes two `Option` values: the list file name, and
  the contents of the EMBL file, which are split into lines as `readlines`
  would. `None` stands for a missing list name or a missing EMBL file. It
  returns the listing it would write, or `None` when it returns early.

The main end-to-end results:
- `Writer.OutputAccessions`: reading the accession lines back from the output
  file gives, in order, one word-character name per sorted sequence name (empty
  names dropped).
- `Writer.ChromosomeListOfOutput`: the chromosome list of that file therefore
  numbers these names 1, 2, … and marks only the first as `Chromosome`.
- Every part of an entry reads back line by line:
  - the header (`Header.HeaderReadsBack`);
  - the source feature (`Header.SourceReadsBack`);
  - each feature (`Features.FeatureReadsBack`);
  - each qualifier block (`Attributes.AttributeTextReadsBack`).
- Numbers printed with `%d` parse back (`Text.ParseNatStr`, `Features.SpanReadsBack`,
  `Header.LengthReadsBack`).
- Every wrapped qualifier line fits in 79 columns.

The sequence body is modelled exactly as written, including the padding
formula of its last line (`convert.py:101-106`). That formula pads a last line
whose base count ends in 9 and is below 59 to 70 columns before the counter,
and every other last line to 71 (`SequenceFormat.LastLineWidth`, `SequenceFormat.PadFormulas`).

## Model

| member | source | states |
|---|---|---|
| Text.LowerIdempotent | gff3toembl/convert.py:77 | lower-casing an already lower-cased sequence changes nothing |
| Text.LowerAppend | gff3toembl/convert.py:87 | `lower()` works character by character, so lower-casing a concatenation lower-cases each part |
| Text.CountAppend | gff3toembl/convert.py:78-81 | `count` of a character is additive over concatenation |
| Text.ParseNatStr | gff3toembl/convert.py:115 | the decimal text `%d` prints for a number reads back as that number |
| Text.NatStrDigits | gff3toembl/convert.py:115 | `%d` of a natural number is made of decimal digits only |
| Text.RJust | gff3toembl/convert.py:95 | `%9s` gives a shorter text exactly 9 columns and leaves a longer one unchanged |
| Text.RJustLayout | gff3toembl/convert.py:95 | the padding goes on the left: the text ends the field and only blanks precede it |
| Text.RJustNatStr | gff3toembl/convert.py:95 | the right-justified counter holds only blanks and digits |
| Text.SplitLast | gff3toembl/convert.py:139-140 | the last piece of `split('_')` is the longest `_`-free suffix: the whole text when there is no `_`, otherwise what follows the last `_` |
| Text.JoinSplit | gff3toembl/convert.py:144 | `split(',')` loses nothing: joining the pieces with the separator gives the value back |
| Text.ReplaceAbsent | gff3toembl/convert.py:147 | `replace` with a pattern that does not occur leaves the text unchanged |
| Text.ReplaceKeepsOut | gff3toembl/convert.py:183 | `replace` introduces no character that is in neither the text nor the replacement |
| Text.FilterWord | gff3toembl/convert.py:56 | `re.sub(r'\W+', '', id)` keeps only word characters and never lengthens the identifier |
| Text.FilterWordChar | gff3toembl/convert.py:56 | a single character is kept exactly when it is a word character |
| Text.FilterWordAppend | gff3toembl/convert.py:56 | the filter works character by character: the filter of a concatenation is the concatenation of the filters, so every word character is kept in order |
| Text.FilterWordCounts | gff3toembl/convert.py:56 | each word character occurs in the result as often as in the identifier, and no other character occurs |
| Text.FilterWordKeepsWords | gff3toembl/convert.py:56 | an identifier made of word characters passes the filter unchanged |
| Text.WordPrefixOfWord | gff3toembl/EMBLWriter.py:65 | the greedy `(\w+)` capture of a word followed by a non-word character, or by nothing, is exactly that word |
| Text.ReadLinesUnlines | gff3toembl/EMBLWriter.py:64 | `readlines` of newline-terminated lines that contain no newline gives those lines back, each with its `\n` |
| Text.ReadLinesAppend | gff3toembl/EMBLWriter.py:64 | `readlines` of text ending in a newline, followed by more text, is the lines of the first part followed by the lines of the second |
| TextWrap.WrapProperties | gff3toembl/convert.py:190 | every wrapped line has 1 to 58 characters and no newline; there is no line exactly when the text is blank; joined with blanks, the lines give the pieces joined with blanks; the pieces hold every non-blank character in order |
| TextWrap.TokensContent | gff3toembl/convert.py:190 | cutting the text into pieces drops the whitespace and nothing else |
| TextWrap.FillJoin | gff3toembl/convert.py:190 | greedy filling only decides where lines break: it neither drops nor reorders pieces |
| SequenceFormat.CountLower | gff3toembl/convert.py:77-81 | counting a lower-case base after `lower()` counts both of its cases in the original |
| SequenceFormat.CanonicalCountsBounded | gff3toembl/convert.py:82 | the a/c/g/t counts never exceed the length, so the `other` count is never negative |
| SequenceFormat.CompositionOf | gff3toembl/convert.py:76-82 | the composition holds the length and the count of each base in either case, and the counts with `other` add up to the length |
| SequenceFormat.SequenceHeader | gff3toembl/convert.py:83-84 | the `SQ` line starts `SQ   Sequence ` and is exactly one newline-terminated line |
| SequenceFormat.Grouped | gff3toembl/convert.py:90-93 | the bases in groups of ten take one extra column for each complete group |
| SequenceFormat.SequenceBody | gff3toembl/convert.py:86-106 | the loop writes exactly the layout function `Body`: full lines of 60, then the padded last line |
| SequenceFormat.BodyWhenFull | gff3toembl/convert.py:94-98 | a sequence of exactly 60·q bases (q ≥ 1) gives q full lines and nothing after them |
| SequenceFormat.BodyWhenPartial | gff3toembl/convert.py:99-106 | any other length gives the full lines followed by one last line |
| SequenceFormat.PadFormulas | gff3toembl/convert.py:101-106 | the two padding expressions of the source equal the model's single last-line pad |
| SequenceFormat.FullLineLength | gff3toembl/convert.py:90-95 | every full line is 81 characters: indent, 60 bases, 6 blanks, a 9-column counter and a newline |
| SequenceFormat.BaseAt | gff3toembl/convert.py:90-93 | base 60q+10p+d of the sequence, lower-cased, stands in column 81q+BaseColumn(p,d) of the body |
| SequenceFormat.BlankAfterTenth | gff3toembl/convert.py:92-93 | a blank follows every complete group of ten bases |
| SequenceFormat.CounterAfterLine | gff3toembl/convert.py:94-95 | the k-th full line ends with the counter 60k, right-justified in 9 columns |
| SequenceFormat.BodyEndsWithLength | gff3toembl/convert.py:96-106 | the body always ends with the sequence length, right-justified in 9 columns, and a newline |
| SequenceFormat.BodyLength | gff3toembl/convert.py:86-106 | the body's length is 81 per full line plus the last line's width and its 10-column counter |
| SequenceFormat.BodyAvoidsA | gff3toembl/convert.py:86-106 | the body holds no upper-case `A`, so no body line can look like an `AC` line |
| SequenceFormat.ConstructSequence | gff3toembl/convert.py:70-74 | the sequence block is the `SQ` line followed by the body, and starts `SQ   Sequence ` |
| Attributes.UpdateLocusTag | gff3toembl/convert.py:136-141 | without a locus tag the value is unchanged; with one the result is the tag, `_`, and then the longest `_`-free tail of the value (all of it, or what follows its last `_`), so any old prefix is dropped |
| Attributes.LocusTagKeepsLastPart | gff3toembl/convert.py:139-140 | the part after the last `_` survives the rewrite |
| Attributes.LocusTagIdempotent | gff3toembl/convert.py:136-141 | rewriting the locus tag twice is the same as rewriting it once |
| Attributes.FirstNamed | gff3toembl/convert.py:146-151 | the product is the first comma-separated part that, with `nknown` rewritten to `ncharacterised`, is not `hypothetical protein`; it is `Uncharacterised protein` when there is none; it is never `hypothetical protein` |
| Attributes.FirstNamedAmong | gff3toembl/convert.py:143-151 | the product is `Uncharacterised protein` or one of the rewritten parts |
| Attributes.ProductNameClean | gff3toembl/convert.py:143-151 | the product written contains no comma and is never `hypothetical protein` |
| Attributes.SearchHypoProtein | gff3toembl/convert.py:143-151 | the loop returns the product the specification function `ProductName` names |
| Attributes.FirstMatch | gff3toembl/convert.py:181-182 | the first inference-table prefix that occurs in the value, and none earlier; none at all when no prefix occurs |
| Attributes.Rekey | gff3toembl/convert.py:179-184 | keys other than `inference`, and values with no known prefix, pass unchanged; otherwise the key becomes `db_xref` and the first matching prefix is replaced by its database name |
| Attributes.UpdateInferenceToDbXref | gff3toembl/convert.py:179-184 | the loop returns the pair `Rekey` gives |
| Attributes.Qualifier | gff3toembl/convert.py:190 | the qualifier text `/key="value"` starts with `/` |
| Attributes.AttributeLines | gff3toembl/convert.py:186-196 | a qualifier always gives at least one line, and each line is a gutter plus at most 58 characters with no newline |
| Attributes.AttributeLinesContent | gff3toembl/convert.py:186-196 | the lines are the gutter plus the wrap of the rewritten `/key="value"`, and they hold all of its non-blank text in order |
| Attributes.InferenceWrittenAsDbXref | gff3toembl/convert.py:187-188 | an inference with a known prefix is written exactly as the corresponding `db_xref` would be |
| Attributes.InferenceKeptOtherwise | gff3toembl/convert.py:179-190 | an inference with no known prefix is written under its own key |
| Attributes.CreateMultiLineAttribute | gff3toembl/convert.py:186-196 | the loop writes the lines of `AttributeLines`, each terminated by a newline |
| Attributes.Distinct | gff3toembl/convert.py:168 | `list(set(...))` has no repeats and exactly the members of the list, and is empty only when the list is |
| Attributes.Segments | gff3toembl/convert.py:166-170 | the comma split always yields at least one part, so `[0]` is always defined |
| Attributes.SegmentLinesShape | gff3toembl/convert.py:174-176 | every line written for a multi-line qualifier is a qualifier line |
| Attributes.AttributeBlock | gff3toembl/convert.py:153-177 | `ID` and `protein_id` give nothing, and every line given is a gutter plus at most 58 characters |
| Attributes.AttributeBlockNonEmpty | gff3toembl/convert.py:153-177 | every other key gives at least one line |
| Attributes.SingleQualifier | gff3toembl/convert.py:171-172 | a key that is not a multi-line key writes only the first comma-separated part of its rewritten value |
| Attributes.ProductQualifier | gff3toembl/convert.py:160-161 | a product is written as the one name `search_hypo_protein` picks, never `hypothetical protein` |
| Attributes.EcNumbersOnce | gff3toembl/convert.py:157-168 | `eC_number` is renamed `EC_number`, and each distinct EC number is written once, none lost |
| Attributes.InferencePerSegment | gff3toembl/convert.py:174-176 | an inference writes one qualifier per comma-separated part |
| Attributes.ConstructFeatureAttribute | gff3toembl/convert.py:153-177 | the method writes the lines of `AttributeBlock`, each terminated by a newline |
| Attributes.AttributeTextReadsBack | gff3toembl/convert.py:153-196 | the text reads back as exactly those lines; each starts with the gutter and is at most 79 columns |
| Features.SpanReadsBack | gff3toembl/convert.py:115 | the location `start..end` splits on `.` into start, an empty piece and end, and both numbers parse back |
| Features.FeatureHeader | gff3toembl/convert.py:108-116 | `feature_header` writes one newline-terminated line starting `FT   ` and the key; a key of at most 16 characters is blank-padded so the location fills columns 22 onward; no newline inside when the key has none |
| Features.HeaderColumns | gff3toembl/convert.py:115 | the key line starts `FT   ` and the key; a key of at most 16 characters is blank-padded so the location starts in column 22 |
| Features.MinusStrandComplement | gff3toembl/convert.py:112-115 | on the minus strand the location is the plus-strand location inside `complement(` … `)` |
| Features.OverriddenType | gff3toembl/convert.py:123-126 | the type becomes `rRNA` exactly when some attribute value starts with `16S ribosomal RNA`; otherwise it is kept |
| Features.AttributesLinesShape | gff3toembl/convert.py:129-130 | every line written for the attributes is a qualifier line |
| Features.FeatureLayout | gff3toembl/convert.py:118-134 | an ignored type (`ncRNA`) gives nothing; otherwise the key line with the possibly overridden type, the attributes' lines in order, and a `/transl_table=` line exactly when the type is `CDS` |
| Features.FeatureReadsBack | gff3toembl/convert.py:118-134 | a feature reads back as exactly its lines, and every line after the first starts with the gutter |
| Features.FeatureLinesShape | gff3toembl/convert.py:118-134 | no feature line holds a newline, and every line starts with `FT` |
| Features.ConstructFeature | gff3toembl/convert.py:118-134 | the two loops write exactly the lines of `FeatureLines`, each terminated by a newline |
| Features.FeatureIsTableText | gff3toembl/convert.py:118-134 | a feature is feature-table text: whole lines, each starting with `FT` |
| Features.ConcatTableText | gff3toembl/EMBLWriter.py:47-48 | features written one after another remain feature-table text |
| Header.PopulatedHeader | gff3toembl/convert.py:42-58 | with one-line metadata the header reads back as the 17 template lines, the fifth being `AC * _` and the filtered identifier |
| Header.HeaderLayout | gff3toembl/convert.py:20-58 | the header has 17 lines; line 5 is `AC * _` and the filtered identifier; no other line starts with `AC * _`; the accession holds only word characters |
| Header.HeaderIgnoresDescription | gff3toembl/convert.py:42-58 | neither the description nor the contig number changes the header |
| Header.LengthReadsBack | gff3toembl/convert.py:22 | the ID line ends with the length and `BP.`, and the length parses back |
| Header.HeaderReadsBack | gff3toembl/convert.py:20-58 | when the metadata holds no newline, the header reads back as exactly its 17 lines |
| Header.SourceTemplate | gff3toembl/convert.py:60-68 | the source block opens with the key line `feature_header("source", 1, length, '+')` writes and, with one-line names, reads back as its five lines |
| Header.SourceIsFeature | gff3toembl/convert.py:60-68 | the source block is the key line `feature_header("source", 1, length, '+')` would write, followed by the organism, mol_type, taxon db_xref and note qualifiers |
| Header.SourceReadsBack | gff3toembl/convert.py:60-68 | when the organism and name hold no newline, the source block reads back as exactly its 5 lines, each starting with `FT` |
| Writer.BelowTotal | gff3toembl/EMBLWriter.py:44 | string order compares any two different names |
| Writer.BelowTransitive | gff3toembl/EMBLWriter.py:44 | string order is transitive |
| Writer.BelowIrreflexive | gff3toembl/EMBLWriter.py:44 | no name is below itself |
| Writer.SortedNames | gff3toembl/EMBLWriter.py:44 | `sorted` gives every name once, strictly ascending |
| Writer.AscendingUnique | gff3toembl/EMBLWriter.py:44 | only one ascending sequence holds a given set of names |
| Writer.Insert | gff3toembl/EMBLWriter.py:44 | inserting a new name keeps the names ascending and adds exactly that name |
| Writer.SortNames | gff3toembl/EMBLWriter.py:44 | the insertion loop computes `sorted(sequences)` |
| Writer.WriteRecord | gff3toembl/EMBLWriter.py:45-50 | one entry is the header, the source feature, the stored features, the sequence block and `//` |
| Writer.WriteRecords | gff3toembl/EMBLWriter.py:42-51 | the loop writes the entries of the names in order, numbering the k-th entry k |
| Writer.CreateOutputFile | gff3toembl/EMBLWriter.py:41-52 | the text written is the entries of the sequence names in sorted order |
| Writer.AccessionOf | gff3toembl/EMBLWriter.py:65-66 | `re.match("AC \* _(\w+)")` captures a non-empty, greedy run of word characters right after `AC * _` at the start of a line, and otherwise nothing |
| Writer.AccessionsAppend | gff3toembl/EMBLWriter.py:64-67 | the accessions of two runs of lines are those of the first followed by those of the second |
| Writer.Rows | gff3toembl/EMBLWriter.py:69-75 | one row per accession |
| Writer.CreateChromosomeList | gff3toembl/EMBLWriter.py:54-75 | nothing is written without a list name or an EMBL file; otherwise the listing of the accessions found in the file's lines, in file order |
| Writer.ListingReadsBack | gff3toembl/EMBLWriter.py:69-75 | the listing reads back one line per accession; each splits on tabs into the accession, its 1-based number (which parses back) and `Chromosome` for the first, `Plasmid` for the others |
| Writer.WordIds | gff3toembl/convert.py:56 | each accession written is a non-empty run of word characters |
| Writer.HeaderAccessions | gff3toembl/convert.py:20-58 | the header of an entry carries one accession, the filtered identifier, and none when that is empty |
| Writer.RecordAccessions | gff3toembl/EMBLWriter.py:45-50 | a whole entry carries exactly the accession of its header and ends with a newline |
| Writer.RecordsAccessions | gff3toembl/EMBLWriter.py:42-51 | the entries of a list of names carry, in order, the accessions of those names |
| Writer.OutputAccessions | gff3toembl/EMBLWriter.py:41-67 | the accessions read back from the output file are the filtered sorted sequence names, empty ones dropped |
| Writer.ChromosomeListOfOutput | gff3toembl/EMBLWriter.py:41-75 | the chromosome list of the output file numbers the filtered sorted names 1, 2, … and marks only the first as `Chromosome` |

## Left out

- File I/O (`open`, `write`, `close`, `os.path.exists`) is modelled as strings: the text written is returned, and a missing file is an `Option` value.
- `sort_and_tidy_gff_file` is not modelled. It runs the external `gt` program.
- `parse_and_run` is not modelled. It drives the GFF3 parser and removes a temporary file.
- `EMBLConverter` and `VisitorStream` are not part of this model. Their `seqs` and `feats` tables are parameters.
- Writer.CreateOutputFile: the name set that is sorted and the sequence table are one map, as in the only call (`parse_and_run` passes `self.conv.seqs.keys()`). A name with no stored features writes none, as the `defaultdict` behind `feats` does.
- `create_output_file` also receives the description. `populated_header` ignores it, and `Header.HeaderIgnoresDescription` states that.
- A feature's attributes are a given sequence that stands for the order in which `construct_feature` iterates `feature_attributes.keys()` (`convert.py:130-131`), and that order decides the order of the qualifier blocks in the output. The source is Python 2, whose dictionaries iterate in hash order. The model does not compute that order and fixes no particular one: every result about a feature holds for whatever order the sequence gives.
- The inference-prefix table is likewise a sequence. The source tries its prefixes in Python 2's hash order of the dictionary; the model tries them in the order they are written, which matters only for a value that contains two of them.
- The feature-renaming regex table has one entry, `^16S ribosomal RNA`. It is modelled as that prefix test, and the loop over the table's keys is not modelled separately.
- Attributes.Distinct: `list(set(...))` has an unspecified order in Python. The model keeps the first occurrences in input order and proves only that there are no repeats and that no member is lost.
- `re.search` and `re.match` with fixed patterns are modelled as substring and prefix tests. `\w` is modelled as the ASCII letters, digits and `_`.
- TextWrap.Wrap is weaker than `textwrap.wrap`: it breaks only at whitespace, not after hyphens. A word longer than 58 characters is cut into 58-character pieces that each start a new line, rather than partly filling the current line. It also collapses every whitespace run into one blank between pieces, where `textwrap` keeps runs such as the two blanks in `"a  b"`, so line breaks can differ.
- `str.lower` is modelled on ASCII letters only.
- SequenceFormat.FullLineLength, SequenceFormat.BaseAt, SequenceFormat.BlankAfterTenth, SequenceFormat.CounterAfterLine and SequenceFormat.BodyLength require fewer than 10^9 bases. From 10^9 bases on, a counter is wider than the 9 columns of `%9s` and every later line is shifted by the extra digits; `SequenceFormat.Body` and `SequenceFormat.SequenceBody` still reproduce the source there, but these column-by-column lemmas do not describe it.
- The translation table and the taxon id are natural numbers. Negative values, which `%d` and `str` would print with a sign, are not modelled.
- Writer.SortedNames and the output-file specification are ghost definitions, because `sorted` is specified by its result. The method `Writer.SortNames` computes the same sequence.
