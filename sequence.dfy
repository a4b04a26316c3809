/** The sequence block of an EMBL entry: the `SQ` base-composition line and
    the lower-cased body, 60 bases per line in groups of ten, each line
    closed by a running base counter right-justified to nine columns. */
module SequenceFormat {
  import opened Text

  /** The five blanks that open every body line. */
  const Indent: string := "     "

  // ---------------------------------------------------------------------
  // The SQ summary line

  datatype Composition = Composition(length: nat, a: nat, c: nat, g: nat, t: nat, other: int)

  /** In a lower-cased sequence the four canonical counts never exceed the length. */
  lemma {:induction false} CanonicalCountsBounded(s: string)
    ensures Count(s, 'a') + Count(s, 'c') + Count(s, 'g') + Count(s, 't') <= |s|
  {
    if s != [] {
      CanonicalCountsBounded(s[1..]);
    }
  }

  /** Counting in the lower-cased sequence counts both cases of a letter. */
  lemma {:induction false} CountLower(s: string, lower: char, upper: char)
    requires 'A' <= upper <= 'Z' && lower as int == upper as int + 32
    ensures Count(Lower(s), lower) == Count(s, lower) + Count(s, upper)
  {
    if s != [] {
      assert Lower(s)[1..] == Lower(s[1..]);
      CountLower(s[1..], lower, upper);
    }
  }

  /** The counts that `sequence_header` prints: case-insensitive, summing to
      the length, with a never-negative `other`. */
  function CompositionOf(sequence: string): (r: Composition)
    ensures r.length == |sequence|
    ensures r.a == Count(sequence, 'a') + Count(sequence, 'A')
    ensures r.c == Count(sequence, 'c') + Count(sequence, 'C')
    ensures r.g == Count(sequence, 'g') + Count(sequence, 'G')
    ensures r.t == Count(sequence, 't') + Count(sequence, 'T')
    ensures r.a + r.c + r.g + r.t + r.other == r.length
    ensures r.other >= 0
  {
    var s := Lower(sequence);
    CanonicalCountsBounded(s);
    CountLower(sequence, 'a', 'A');
    CountLower(sequence, 'c', 'C');
    CountLower(sequence, 'g', 'G');
    CountLower(sequence, 't', 'T');
    var a, c, g, t := Count(s, 'a'), Count(s, 'c'), Count(s, 'g'), Count(s, 't');
    Composition(|s|, a, c, g, t, |s| - a - c - g - t)
  }

  /** `SQ   Sequence <n> BP; <a> A; <c> C; <g> G; <t> T; <o> other;` */
  function SummaryLine(k: Composition): (r: string)
    requires k.other >= 0
    ensures StartsWith(r, "SQ   Sequence ")
    ensures '\n' !in r
  {
    NatStrAvoids(k.length, '\n'); NatStrAvoids(k.a, '\n'); NatStrAvoids(k.c, '\n');
    NatStrAvoids(k.g, '\n'); NatStrAvoids(k.t, '\n'); NatStrAvoids(k.other as nat, '\n');
    "SQ   Sequence " + NatStr(k.length) + " BP; " + NatStr(k.a) + " A; " + NatStr(k.c) + " C; "
      + NatStr(k.g) + " G; " + NatStr(k.t) + " T; " + NatStr(k.other as nat) + " other;"
  }

  /** The summary line of the sequence, as one line. */
  function SequenceHeader(sequence: string): (r: string)
    ensures StartsWith(r, "SQ   Sequence ")
    ensures EndsWithNewline(r) && '\n' !in r[..|r| - 1]
  {
    var line := SummaryLine(CompositionOf(sequence));
    assert (line + "\n")[..|line|] == line;
    assert (line + "\n")[..14] == line[..14];
    line + "\n"
  }

  // ---------------------------------------------------------------------
  // The body, as a layout of lines

  /** The bases of one line with a blank after every tenth. */
  function Grouped(bases: string): (r: string)
    ensures |r| == |bases| + |bases| / 10
  {
    if bases == [] then ""
    else Grouped(bases[..|bases| - 1]) + [bases[|bases| - 1]] + (if |bases| % 10 == 0 then " " else "")
  }

  /** Base `m` of a line sits at column `m + m / 10` of its groups. */
  lemma {:induction false} GroupedBaseAt(bases: string, m: nat)
    requires m < |bases|
    ensures Grouped(bases)[m + m / 10] == bases[m]
  {
    var init := bases[..|bases| - 1];
    if m < |bases| - 1 {
      GroupedBaseAt(init, m);
      assert Grouped(bases)[m + m / 10] == Grouped(init)[m + m / 10];
    }
  }

  /** Base `d` of group `p` sits at column `11p + d` of the groups. */
  lemma GroupedBaseIn(bases: string, p: nat, d: nat)
    requires d < 10 && 10 * p + d < |bases|
    ensures 11 * p + d < |Grouped(bases)| && Grouped(bases)[11 * p + d] == bases[10 * p + d]
  {
    GroupedBaseAt(bases, 10 * p + d);
    assert (10 * p + d) / 10 == p;
  }

  /** The tenth base of every complete group is followed by a blank. */
  lemma {:induction false} GroupedBlankAt(bases: string, p: nat)
    requires 10 * p + 10 <= |bases|
    ensures Grouped(bases)[11 * p + 10] == ' '
  {
    var init := bases[..|bases| - 1];
    if 10 * p + 10 < |bases| {
      GroupedBlankAt(init, p);
      assert Grouped(bases)[11 * p + 10] == Grouped(init)[11 * p + 10];
    }
  }

  lemma {:induction false} GroupedAvoids(bases: string, c: char)
    requires c !in bases && c != ' '
    ensures c !in Grouped(bases)
  {
    if bases != [] {
      GroupedAvoids(bases[..|bases| - 1], c);
    }
  }

  /** Appending one base extends the groups by that base and, after a tenth base, a blank. */
  lemma GroupedStep(s: string, start: nat, j: nat)
    requires start <= j < |s|
    ensures Grouped(s[start..j + 1]) == Grouped(s[start..j]) + [s[j]] + (if (j + 1 - start) % 10 == 0 then " " else "")
  {
    assert s[start..j + 1][..j - start] == s[start..j];
  }

  /** Full line `k` (0-based): bases `60k .. 60k + 59` and the counter `60(k + 1)`. */
  function FullLine(s: string, k: nat): string
    requires 60 * k + 60 <= |s|
  {
    Indent + Grouped(s[60 * k..60 * k + 60]) + RJust(NatStr(60 * k + 60), 9) + "\n"
  }

  /** The first `k` full lines. */
  function FullLines(s: string, k: nat): string
    requires 60 * k <= |s|
  {
    if k == 0 then "" else FullLines(s, k - 1) + FullLine(s, k - 1)
  }

  /** Width of the final, unfinished line before its counter: 71 like a full
      line, except 70 when the line stops on the ninth base of a group. */
  function LastLineWidth(r: nat): nat
  {
    if r % 10 == 9 && r < 59 then 70 else 71
  }

  /** What the loop has written after its first `j` bases, `q` full lines
      being behind it: those lines, the indent and the groups so far. */
  function Written(s: string, q: nat, j: nat): string
    requires 60 * q <= j <= |s|
  {
    FullLines(s, q) + Indent + Grouped(s[60 * q..j])
  }

  /** The blanks between the last base and the counter on the unfinished
      last line of `r` bases: its width less the indent, the bases and the
      group blanks. */
  function LastPad(r: nat): int
  {
    LastLineWidth(r) - (5 + r + r / 10)
  }

  /** The unfinished last line of a sequence whose full lines number `q`:
      the indent, the remaining bases in groups, `LastPad` blanks, the
      counter. */
  function LastLine(s: string, q: nat): string
    requires 60 * q <= |s| < 60 * q + 60
  {
    Indent + Grouped(s[60 * q..]) + Spaces(LastPad(|s| - 60 * q)) + RJust(NatStr(|s|), 9) + "\n"
  }

  /** The body laid out for a lower-cased sequence of `60q + r` bases. */
  function Layout(s: string, q: nat, r: nat): string
    requires 60 * q + r == |s| && r < 60
  {
    if r == 0 && q > 0 then FullLines(s, q) else FullLines(s, q) + LastLine(s, q)
  }

  /** The body `sequence_body` returns. A length that is a positive multiple
      of 60 ends on a full line; otherwise a last line holds the remaining
      bases, blank-padded to `LastLineWidth` and closed by the length. */
  function Body(sequence: string): string
  {
    var s := Lower(sequence);
    var q := FullLineCount(|s|);
    Layout(s, q, |s| - 60 * q)
  }

  /** How many full lines of 60 precede the last, unfinished one. */
  function FullLineCount(n: nat): (q: nat)
    ensures 60 * q <= n < 60 * q + 60
  {
    if n < 60 then 0 else FullLineCount(n - 60) + 1
  }

  /** A length inside line `q` has `q` full lines before it. */
  lemma CountOf(n: nat, q: nat)
    requires 60 * q <= n < 60 * q + 60
    ensures FullLineCount(n) == q
  {
  }

  // ---------------------------------------------------------------------
  // The loop of `sequence_body`

  /** The source's tests on the running count `i = j + 1`, read inside line `q`. */
  lemma CountTests(i: nat, j: nat, q: nat)
    requires i == j + 1 && 60 * q <= j < 60 * q + 60
    ensures (i % 10 == 0) == ((j + 1 - 60 * q) % 10 == 0)
    ensures (i % 60 == 0) == (j + 1 == 60 * q + 60)
    ensures i % 60 == 0 ==> i % 10 == 0
  {
    var c := j + 1 - 60 * q;
    ShiftMod10(6 * q, c);
    ShiftMod60(q, c);
  }

  lemma ShiftMod10(k: nat, c: nat)
    ensures (10 * k + c) % 10 == c % 10
  {
  }

  lemma ShiftMod60(k: nat, c: nat)
    ensures (60 * k + c) % 60 == c % 60
  {
  }

  /** A length inside line `q` divides as expected. */
  lemma LineOf(n: nat, q: nat)
    requires 60 * q <= n < 60 * q + 60
    ensures n / 60 == q && n % 60 == n - 60 * q
  {
  }

  /** One base inside a line: the base and, after a tenth, a blank. */
  lemma WrittenStep(s: string, q: nat, j: nat)
    requires 60 * q <= j < |s|
    ensures (j + 1 - 60 * q) % 10 == 0 ==> Written(s, q, j + 1) == Written(s, q, j) + [s[j]] + " "
    ensures (j + 1 - 60 * q) % 10 != 0 ==> Written(s, q, j + 1) == Written(s, q, j) + [s[j]]
  {
    GroupedStep(s, 60 * q, j);
    var groups := Grouped(s[60 * q..j]);
    if (j + 1 - 60 * q) % 10 == 0 {
      Assoc4(FullLines(s, q), Indent, groups, [s[j]] + " ");
    } else {
      assert groups + [s[j]] + "" == groups + [s[j]];
      Assoc4(FullLines(s, q), Indent, groups, [s[j]]);
    }
  }

  lemma WrittenStart(s: string, q: nat, j: nat)
    requires q == 0 && j == 0
    ensures Written(s, q, j) == Indent
  {
    assert s[0..0] == [];
  }

  /** What the loop has appended after its first `j` bases, turn by turn:
      the base, a blank after a tenth, and after a sixtieth that is not the
      last base the counter, the newline and the next indent. */
  function Emitted(s: string, j: nat): string
    requires j <= |s|
  {
    if j == 0 then Indent
    else
      var before := Emitted(s, j - 1) + [s[j - 1]];
      if j % 60 == 0 && j < |s| then before + " " + RJust(NatStr(j), 9) + "\n" + Indent
      else if j % 10 == 0 then before + " "
      else before
  }

  /** One turn of the loop, on the running count `i = j + 1`: a sixtieth
      base that is not the last closes its line and opens the next. */
  lemma EmittedLineEnd(s: string, j: nat, i: nat)
    requires j < |s| && i == j + 1 && i % 60 == 0 && i < |s|
    ensures Emitted(s, j + 1) == Emitted(s, j) + [s[j]] + " " + RJust(NatStr(i), 9) + "\n" + Indent
  {
  }

  /** Any other tenth base is followed by a blank. */
  lemma EmittedTenth(s: string, j: nat, i: nat)
    requires j < |s| && i == j + 1 && !(i % 60 == 0 && i < |s|) && i % 10 == 0
    ensures Emitted(s, j + 1) == Emitted(s, j) + [s[j]] + " "
  {
  }

  /** Any other base is appended alone. */
  lemma EmittedPlain(s: string, j: nat, i: nat)
    requires j < |s| && i == j + 1 && i % 10 != 0
    ensures Emitted(s, j + 1) == Emitted(s, j) + [s[j]]
  {
    SixtiethIsTenth(i);
  }

  /** The three cases of one turn together. */
  lemma EmittedStep(s: string, j: nat, i: nat)
    requires j < |s| && i == j + 1
    ensures i % 60 == 0 && i < |s| ==>
      Emitted(s, j + 1) == Emitted(s, j) + [s[j]] + " " + RJust(NatStr(i), 9) + "\n" + Indent
    ensures !(i % 60 == 0 && i < |s|) && i % 10 == 0 ==> Emitted(s, j + 1) == Emitted(s, j) + [s[j]] + " "
    ensures i % 10 != 0 ==> Emitted(s, j + 1) == Emitted(s, j) + [s[j]]
  {
    SixtiethIsTenth(i);
    if i % 60 == 0 && i < |s| {
      EmittedLineEnd(s, j, i);
    } else if i % 10 == 0 {
      EmittedTenth(s, j, i);
    } else {
      EmittedPlain(s, j, i);
    }
  }

  /** A sixtieth base is also a tenth. */
  lemma SixtiethIsTenth(i: nat)
    ensures i % 60 == 0 ==> i % 10 == 0
  {
    ShiftMod10(6 * (i / 60), 0);
    assert i % 60 == 0 ==> i == 10 * (6 * (i / 60)) + 0;
  }

  /** After `j` bases, of which `q` full lines, the loop has written
      `Written(s, q, j)`, unless it has just closed the very last line. */
  lemma {:induction false} EmittedWritten(s: string, j: nat, q: nat)
    requires j <= |s| && 60 * q <= j < 60 * q + 60 && (j > 60 * q || j < |s| || q == 0)
    ensures Emitted(s, j) == Written(s, q, j)
    decreases j, 1
  {
    if j == 0 {
      WrittenStart(s, q, j);
    } else if j == 60 * q {
      EmittedWrittenAtBreak(s, j, q, j - 1, q - 1);
    } else {
      EmittedWrittenInLine(s, j, q);
    }
  }

  lemma {:induction false} EmittedWrittenAtBreak(s: string, j: nat, q: nat, k: nat, p: nat)
    requires 0 < j < |s| && j == 60 * q && k + 1 == j && p + 1 == q
    ensures Emitted(s, j) == Written(s, q, j)
    decreases j, 0
  {
    EmittedWritten(s, k, p);
    EmittedLineBreak(s, j, q, k, p);
  }

  lemma {:induction false} EmittedWrittenInLine(s: string, j: nat, q: nat)
    requires 60 * q < j < 60 * q + 60 && j <= |s|
    ensures Emitted(s, j) == Written(s, q, j)
    decreases j, 0
  {
    EmittedWritten(s, j - 1, q);
    EmittedInLine(s, j, q);
  }

  /** The sixtieth base of a line that is not the last one. */
  lemma EmittedLineBreak(s: string, j: nat, q: nat, k: nat, p: nat)
    requires 0 < j < |s| && j == 60 * q && k + 1 == j && p + 1 == q
    requires Emitted(s, k) == Written(s, p, k)
    ensures Emitted(s, j) == Written(s, q, j)
  {
    ShiftMod60(q, 0);
    EmittedBreaksAt(s, k, j);
    LineBreak(s, p, k, j, q);
  }

  /** `EmittedLineEnd`, read at the count `i` itself. */
  lemma EmittedBreaksAt(s: string, j: nat, i: nat)
    requires j < |s| && i == j + 1 && i % 60 == 0 && i < |s|
    ensures Emitted(s, i) == Emitted(s, j) + [s[j]] + " " + RJust(NatStr(i), 9) + "\n" + Indent
  {
  }

  /** A base that does not end its line. */
  lemma EmittedInLine(s: string, j: nat, q: nat)
    requires 60 * q < j < 60 * q + 60 && j <= |s| && Emitted(s, j - 1) == Written(s, q, j - 1)
    ensures Emitted(s, j) == Written(s, q, j)
  {
    var k := j - 1;
    CountTests(j, k, q);
    if j % 10 == 0 {
      EmittedTenth(s, k, j);
    } else {
      EmittedPlain(s, k, j);
    }
    WrittenStep(s, q, k);
    assert k + 1 == j;
  }

  lemma Assoc4<T>(a: seq<T>, b: seq<T>, c: seq<T>, d: seq<T>)
    ensures a + b + (c + d) == a + b + c + d
  {
  }

  lemma Assoc3<T>(a: seq<T>, b: seq<T>, c: seq<T>)
    ensures a + (b + c) == a + b + c
  {
  }

  lemma Assoc7<T>(a: seq<T>, b: seq<T>, c: seq<T>, d: seq<T>, e: seq<T>, f: seq<T>, g: seq<T>)
    ensures a + (b + c + d + e + f + g) == a + b + c + d + e + f + g
  {
  }

  /** The sixtieth base of a line: the base, a blank and the counter close the line. */
  lemma LineStep(s: string, q: nat, j: nat, i: nat)
    requires j < |s| && 60 * q + 59 == j && i == j + 1
    ensures FullLines(s, q + 1) == Written(s, q, j) + [s[j]] + " " + RJust(NatStr(i), 9) + "\n"
  {
    var groups := Grouped(s[60 * q..j]);
    var counter := RJust(NatStr(i), 9);
    assert 60 * q + 60 == i && j + 1 == i;
    assert FullLine(s, q) == Indent + Grouped(s[60 * q..j + 1]) + counter + "\n";
    calc {
      FullLines(s, q + 1);
      FullLines(s, q) + FullLine(s, q);
      FullLines(s, q) + (Indent + Grouped(s[60 * q..j + 1]) + counter + "\n");
      { GroupedStep(s, 60 * q, j); }
      FullLines(s, q) + (Indent + (groups + [s[j]] + " ") + counter + "\n");
      { Assoc7(FullLines(s, q), Indent, groups, [s[j]], " ", counter, "\n"); }
      FullLines(s, q) + Indent + groups + [s[j]] + " " + counter + "\n";
    }
  }

  /** After the sixtieth base of a line that is not the last, the counter,
      the newline and the next indent start line `q + 1`. */
  lemma LineBreak(s: string, q: nat, j: nat, i: nat, r: nat)
    requires j < |s| && 60 * q + 59 == j && i == j + 1 && r == q + 1
    ensures Written(s, q, j) + [s[j]] + " " + RJust(NatStr(i), 9) + "\n" + Indent == Written(s, r, i)
  {
    LineStep(s, q, j, i);
    assert s[60 * r..i] == [];
  }

  /** The source's two padding formulas (`i` is one past the length `n`,
      which lies on line `q`) give exactly the padding `Body` asks for. */
  lemma PadFormulas(n: nat, q: nat, i: nat)
    requires i == n + 1 && 60 * q <= n < 60 * q + 60 && (n > 60 * q || q == 0)
    ensures LastPad(n - 60 * q)
      == if i % 60 == 0 then 66 - ((i - 1) % 60) / 10 - (i - 1) % 60
         else 80 - i % 60 - (i % 60) / 10 - 13
  {
    LineOf(n, q);
    if i % 60 != 0 {
      assert i % 60 == n % 60 + 1;
    }
  }

  /** `Body` when the length is a positive multiple of 60: `q` full lines. */
  lemma BodyWhenFull(sequence: string, q: nat)
    requires |sequence| == 60 * q && q > 0
    ensures Body(sequence) == FullLines(Lower(sequence), q)
  {
    CountOf(|sequence|, q);
  }

  /** `Body` otherwise: `q` full lines, then the unfinished line. */
  lemma BodyWhenPartial(sequence: string, q: nat)
    requires 60 * q <= |sequence| < 60 * q + 60 && (|sequence| > 60 * q || q == 0)
    ensures Body(sequence) == FullLines(Lower(sequence), q) + LastLine(Lower(sequence), q)
  {
    CountOf(|sequence|, q);
  }

  /** Padding and counter after the last base close the unfinished line. */
  lemma WrittenClose(s: string, q: nat)
    requires 60 * q <= |s| < 60 * q + 60
    ensures Written(s, q, |s|) + Spaces(LastPad(|s| - 60 * q)) + RJust(NatStr(|s|), 9) + "\n"
      == FullLines(s, q) + LastLine(s, q)
  {
    var rest := s[60 * q..];
    assert rest == s[60 * q..|s|];
    var pad := Spaces(LastPad(|s| - 60 * q));
    var counter := RJust(NatStr(|s|), 9);
    Assoc6(FullLines(s, q), Indent, Grouped(rest), pad, counter, "\n");
  }

  lemma Assoc6<T>(a: seq<T>, b: seq<T>, c: seq<T>, d: seq<T>, e: seq<T>, f: seq<T>)
    ensures a + b + c + d + e + f == a + (b + c + d + e + f)
  {
  }

  /** The sixtieth base of the last full line closes the body. */
  lemma CloseFull(sequence: string, s: string, j: nat, i: nat)
    requires s == Lower(sequence) && j < |s| == i && i == j + 1 && i % 60 == 0
    ensures Emitted(s, j) + [s[j]] + " " + RJust(NatStr(i), 9) + "\n" == Body(sequence)
  {
    var q := FullLineCount(j);
    ShiftMod60(q, j + 1 - 60 * q);
    assert 60 * q + 59 == j;
    EmittedWritten(s, j, q);
    calc {
      Written(s, q, j) + [s[j]] + " " + RJust(NatStr(i), 9) + "\n";
      { LineStep(s, q, j, i); }
      FullLines(s, q + 1);
      { BodyWhenFull(sequence, q + 1); }
      Body(sequence);
    }
  }

  /** After the last base of an unfinished line, the source's padding
      formula and the counter close the body. */
  lemma ClosePartial(sequence: string, s: string, j: nat, i: nat, pad: int)
    requires s == Lower(sequence) && j == |s| && i == j + 1 && (j % 60 != 0 || j == 0)
    requires pad == if i % 60 == 0 then 66 - ((i - 1) % 60) / 10 - (i - 1) % 60
      else 80 - i % 60 - (i % 60) / 10 - 13
    ensures Emitted(s, j) + Spaces(pad) + RJust(NatStr(i - 1), 9) + "\n" == Body(sequence)
  {
    var q := FullLineCount(j);
    ShiftMod60(q, 0);
    assert j > 60 * q || q == 0;
    EmittedWritten(s, j, q);
    PadFormulas(j, q, i);
    WrittenClose(s, q);
    BodyWhenPartial(sequence, q);
  }

  /** Walks the bases once, as the source does, and produces `Body`. The
      final padding is the source's own pair of formulas. */
  method SequenceBody(sequence: string) returns (output: string)
    ensures output == Body(sequence)
  {
    var s := Lower(sequence);
    output := Indent;
    var i := 1;
    var j := 0;
    while j < |s|
      invariant 0 <= j <= |s| && i == j + 1
      invariant j % 60 == 0 && j > 0 ==> j < |s|
      invariant output == Emitted(s, j)
    {
      EmittedStep(s, j, i);
      SixtiethIsTenth(i);
      output := output + [s[j]];
      if i % 10 == 0 {
        output := output + " ";
      }
      if i % 60 == 0 && i < |s| {
        output := output + RJust(NatStr(i), 9) + "\n" + Indent;
      } else if i % 60 == 0 && i == |s| {
        output := output + RJust(NatStr(i), 9) + "\n";
        CloseFull(sequence, s, j, i);
        return;
      }
      i := i + 1;
      j := j + 1;
    }
    var pad: int;
    if i % 60 == 0 {
      pad := 66 - ((i - 1) % 60) / 10 - (i - 1) % 60;
    } else {
      pad := 80 - i % 60 - (i % 60) / 10 - 13;
    }
    ClosePartial(sequence, s, j, i, pad);
    output := output + Spaces(pad) + RJust(NatStr(i - 1), 9) + "\n";
  }

  /** `construct_sequence`: the summary line, then the body. */
  function SequenceBlock(sequence: string): string
  {
    SequenceHeader(sequence) + Body(sequence)
  }

  method ConstructSequence(sequence: string) returns (block: string)
    ensures block == SequenceBlock(sequence)
    ensures StartsWith(block, "SQ   Sequence ")
  {
    block := "";
    var header := SequenceHeader(sequence);
    block := block + header;
    assert block == header;
    var body := SequenceBody(sequence);
    block := block + body;
    StartsWithAppend(header, body, "SQ   Sequence ");
  }

  // ---------------------------------------------------------------------
  // What the layout promises

  lemma PrefixAppend(p: string, a: string, b: string)
    requires p <= a
    ensures p <= a + b
  {
    assert (a + b)[..|a|] == a;
  }

  lemma PrefixTake(p: string, a: string)
    requires p <= a
    ensures a[..|p|] == p
  {
  }

  lemma PrefixAt(p: string, a: string, i: nat)
    requires p <= a && i < |p|
    ensures a[i] == p[i]
  {
  }

  /** A full line is 81 characters: 71 before the counter, the nine-wide
      counter, the newline. */
  lemma FullLineLength(s: string, m: nat)
    requires 60 * m + 60 <= |s| && 60 * m + 60 < 1000000000
    ensures |FullLine(s, m)| == 81
  {
    CounterFitsNine(60 * m + 60);
    assert |s[60 * m..60 * m + 60]| == 60;
  }

  lemma {:induction false} FullLinesLength(s: string, k: nat)
    requires 60 * k <= |s| && 60 * k < 1000000000
    ensures |FullLines(s, k)| == 81 * k
  {
    if k > 0 {
      FullLinesLength(s, k - 1);
      FullLineLength(s, k - 1);
    }
  }

  /** Fewer full lines are a prefix of more full lines. */
  lemma {:induction false} FullLinesPrefix(s: string, k: nat, m: nat)
    requires k <= m && 60 * m <= |s|
    ensures FullLines(s, k) <= FullLines(s, m)
  {
    if k < m {
      FullLinesPrefix(s, k, m - 1);
      PrefixAppend(FullLines(s, k), FullLines(s, m - 1), FullLine(s, m - 1));
    }
  }

  /** The full lines of the sequence open its body. */
  lemma BodyHasFullLines(sequence: string, k: nat)
    requires 60 * k <= |sequence|
    ensures FullLines(Lower(sequence), k) <= Body(sequence)
  {
    var s := Lower(sequence);
    var q := FullLineCount(|s|);
    assert 60 * q <= |s| < 60 * q + 60;
    FullLinesPrefix(s, k, q);
    if |s| > 0 && |s| == 60 * q {
      BodyWhenFull(sequence, q);
    } else {
      BodyWhenPartial(sequence, q);
      PrefixAppend(FullLines(s, k), FullLines(s, q), LastLine(s, q));
    }
  }

  /** The column of base `d` of group `p` of a line: the five-blank indent,
      then eleven columns for each group before it (ten bases, a blank). */
  function BaseColumn(p: nat, d: nat): nat
  {
    5 + 11 * p + d
  }

  /** The column of the blank that follows group `p` of a line. */
  function GapColumn(p: nat): nat
  {
    5 + 11 * p + 10
  }

  /** Inside full line `q`, base `d` of group `p` sits at `BaseColumn(p, d)`. */
  lemma FullLineBaseAt(s: string, q: nat, p: nat, d: nat)
    requires 60 * q + 60 <= |s| && p < 6 && d < 10
    ensures BaseColumn(p, d) < |FullLine(s, q)|
    ensures FullLine(s, q)[BaseColumn(p, d)] == s[60 * q + 10 * p + d]
  {
    var chunk := s[60 * q..60 * q + 60];
    var groups := Grouped(chunk);
    var counter := RJust(NatStr(60 * q + 60), 9) + "\n";
    assert FullLine(s, q) == Indent + groups + counter;
    GroupedBaseIn(chunk, p, d);
    assert (Indent + groups + counter)[5 + (11 * p + d)] == groups[11 * p + d];
  }

  /** The same on the unfinished last line. */
  lemma LastLineBaseAt(s: string, q: nat, p: nat, d: nat)
    requires d < 10 && 60 * q + 10 * p + d < |s| < 60 * q + 60
    ensures BaseColumn(p, d) < |LastLine(s, q)|
    ensures LastLine(s, q)[BaseColumn(p, d)] == s[60 * q + 10 * p + d]
  {
    var rest := s[60 * q..];
    var groups := Grouped(rest);
    var after := Spaces(LastPad(|s| - 60 * q)) + RJust(NatStr(|s|), 9) + "\n";
    Assoc5(Indent, groups, Spaces(LastPad(|s| - 60 * q)), RJust(NatStr(|s|), 9), "\n");
    assert LastLine(s, q) == Indent + groups + after;
    GroupedBaseIn(rest, p, d);
    assert (Indent + groups + after)[5 + (11 * p + d)] == groups[11 * p + d];
  }

  lemma Assoc5<T>(a: seq<T>, b: seq<T>, c: seq<T>, d: seq<T>, e: seq<T>)
    ensures a + b + c + d + e == a + b + (c + d + e)
  {
  }

  /** Character `n + k` of `a + b`, where `a` is `n` long, is character `k` of `b`. */
  lemma IndexAfter(a: string, b: string, n: nat, k: nat)
    requires |a| == n && k < |b|
    ensures n + k < |a + b| && (a + b)[n + k] == b[k]
  {
  }

  lemma FullLinesSplit(s: string, q: nat)
    requires 60 * q + 60 <= |s|
    ensures FullLines(s, q + 1) == FullLines(s, q) + FullLine(s, q)
  {
  }

  /** Character `k` of full line `q` is character `81q + k` of the body. */
  lemma BodyAtFullLine(sequence: string, q: nat, k: nat)
    requires 60 * q + 60 <= |sequence| < 1000000000 && k < |FullLine(Lower(sequence), q)|
    ensures 81 * q + k < |Body(sequence)|
    ensures Body(sequence)[81 * q + k] == FullLine(Lower(sequence), q)[k]
  {
    var s := Lower(sequence);
    FullLinesAt(s, q, k);
    BodyHasFullLines(sequence, q + 1);
    PrefixAt(FullLines(s, q + 1), Body(sequence), 81 * q + k);
  }

  lemma FullLinesAt(s: string, q: nat, k: nat)
    requires 60 * q + 60 <= |s| < 1000000000 && k < |FullLine(s, q)|
    ensures 81 * q + k < |FullLines(s, q + 1)| && FullLines(s, q + 1)[81 * q + k] == FullLine(s, q)[k]
  {
    FullLinesLength(s, q);
    FullLinesSplit(s, q);
    IndexAfter(FullLines(s, q), FullLine(s, q), 81 * q, k);
  }

  /** Character `k` of the unfinished last line `q` is character `81q + k`
      of the body. */
  lemma BodyAtLastLine(sequence: string, q: nat, k: nat)
    requires 60 * q < |sequence| < 60 * q + 60 && |sequence| < 1000000000
    requires k < |LastLine(Lower(sequence), q)|
    ensures 81 * q + k < |Body(sequence)|
    ensures Body(sequence)[81 * q + k] == LastLine(Lower(sequence), q)[k]
  {
    var s := Lower(sequence);
    BodyWhenPartial(sequence, q);
    FullLinesLength(s, q);
    IndexAfter(FullLines(s, q), LastLine(s, q), 81 * q, k);
  }

  /** Base `d` of group `p` of line `q`, that is base `60q + 10p + d` of
      the sequence, appears lower-cased at column `BaseColumn(p, d)` of that
      line: every base once, in order, ten to a group. */
  lemma BaseAt(sequence: string, q: nat, p: nat, d: nat)
    requires p < 6 && d < 10 && 60 * q + 10 * p + d < |sequence| < 1000000000
    ensures 81 * q + BaseColumn(p, d) < |Body(sequence)|
    ensures Body(sequence)[81 * q + BaseColumn(p, d)] == LowerChar(sequence[60 * q + 10 * p + d])
  {
    LowerAt(sequence, 60 * q + 10 * p + d);
    if 60 * q + 60 <= |sequence| {
      BaseAtFullLine(sequence, q, p, d);
    } else {
      BaseAtLastLine(sequence, q, p, d);
    }
  }

  lemma BaseAtFullLine(sequence: string, q: nat, p: nat, d: nat)
    requires p < 6 && d < 10 && 60 * q + 60 <= |sequence| < 1000000000
    ensures 81 * q + BaseColumn(p, d) < |Body(sequence)|
    ensures Body(sequence)[81 * q + BaseColumn(p, d)] == Lower(sequence)[60 * q + 10 * p + d]
  {
    FullLineBaseAt(Lower(sequence), q, p, d);
    BodyAtFullLine(sequence, q, BaseColumn(p, d));
  }

  lemma BaseAtLastLine(sequence: string, q: nat, p: nat, d: nat)
    requires d < 10 && 60 * q + 10 * p + d < |sequence| < 60 * q + 60 && |sequence| < 1000000000
    ensures 81 * q + BaseColumn(p, d) < |Body(sequence)|
    ensures Body(sequence)[81 * q + BaseColumn(p, d)] == Lower(sequence)[60 * q + 10 * p + d]
  {
    LastLineBaseAt(Lower(sequence), q, p, d);
    BodyAtLastLine(sequence, q, BaseColumn(p, d));
  }

  /** Inside full line `q`, group `p` is followed by a blank. */
  lemma FullLineBlankAt(s: string, q: nat, p: nat)
    requires 60 * q + 60 <= |s| && p < 6
    ensures GapColumn(p) < |FullLine(s, q)|
    ensures FullLine(s, q)[GapColumn(p)] == ' '
  {
    var chunk := s[60 * q..60 * q + 60];
    var groups := Grouped(chunk);
    var counter := RJust(NatStr(60 * q + 60), 9) + "\n";
    assert FullLine(s, q) == Indent + groups + counter;
    GroupedBlankAt(chunk, p);
    assert (Indent + groups + counter)[5 + 11 * p + 10] == groups[11 * p + 10];
  }

  /** The same on the unfinished last line. */
  lemma LastLineBlankAt(s: string, q: nat, p: nat)
    requires 60 * q + 10 * p + 10 <= |s| < 60 * q + 60
    ensures GapColumn(p) < |LastLine(s, q)|
    ensures LastLine(s, q)[GapColumn(p)] == ' '
  {
    var rest := s[60 * q..];
    var groups := Grouped(rest);
    var after := Spaces(LastPad(|s| - 60 * q)) + RJust(NatStr(|s|), 9) + "\n";
    Assoc5(Indent, groups, Spaces(LastPad(|s| - 60 * q)), RJust(NatStr(|s|), 9), "\n");
    assert LastLine(s, q) == Indent + groups + after;
    GroupedBlankAt(rest, p);
    assert (Indent + groups + after)[5 + 11 * p + 10] == groups[11 * p + 10];
  }

  /** A single blank follows every complete group of ten bases. */
  lemma BlankAfterTenth(sequence: string, q: nat, p: nat)
    requires p < 6 && 60 * q + 10 * p + 10 <= |sequence| < 1000000000
    ensures 81 * q + GapColumn(p) < |Body(sequence)|
    ensures Body(sequence)[81 * q + GapColumn(p)] == ' '
  {
    if 60 * q + 60 <= |sequence| {
      BlankOnFullLine(sequence, q, p);
    } else {
      BlankOnLastLine(sequence, q, p);
    }
  }

  lemma BlankOnFullLine(sequence: string, q: nat, p: nat)
    requires p < 6 && 60 * q + 60 <= |sequence| < 1000000000
    ensures 81 * q + GapColumn(p) < |Body(sequence)|
    ensures Body(sequence)[81 * q + GapColumn(p)] == ' '
  {
    FullLineBlankAt(Lower(sequence), q, p);
    BodyAtFullLine(sequence, q, GapColumn(p));
  }

  lemma BlankOnLastLine(sequence: string, q: nat, p: nat)
    requires 60 * q + 10 * p + 10 <= |sequence| < 60 * q + 60 && |sequence| < 1000000000
    ensures 81 * q + GapColumn(p) < |Body(sequence)|
    ensures Body(sequence)[81 * q + GapColumn(p)] == ' '
  {
    LastLineBlankAt(Lower(sequence), q, p);
    BodyAtLastLine(sequence, q, GapColumn(p));
  }

  /** A full line closes with its counter and the newline. */
  lemma FullLineEnds(s: string, m: nat, n: nat)
    requires 60 * m + 60 <= |s| && n == 60 * m + 60
    ensures EndsWith(FullLine(s, m), RJust(NatStr(n), 9) + "\n")
  {
    var front := Indent + Grouped(s[60 * m..60 * m + 60]);
    var counter := RJust(NatStr(n), 9);
    Assoc3(front, counter, "\n");
    EndsWithAppend(front, counter + "\n");
  }

  /** The last of the first `k` full lines. */
  lemma FullLinesLast(s: string, k: nat)
    requires 0 < k && 60 * k <= |s|
    ensures FullLines(s, k) == FullLines(s, k - 1) + FullLine(s, k - 1)
  {
  }

  /** The first `k` full lines close with the counter `60k`. */
  lemma FullLinesEnd(s: string, k: nat, n: nat)
    requires 0 < k && 60 * k <= |s| && n == 60 * k
    ensures EndsWith(FullLines(s, k), RJust(NatStr(n), 9) + "\n")
  {
    FullLineEnds(s, k - 1, n);
    FullLinesLast(s, k);
    EndsWithAppend(FullLines(s, k - 1), FullLine(s, k - 1));
    EndsWithTrans(FullLines(s, k), FullLine(s, k - 1), RJust(NatStr(n), 9) + "\n");
  }

  /** The first `k` lines (`k >= 1`) take `81k` characters, and the last of
      them closes with the counter `60k`, right-justified to nine columns. */
  lemma CounterAfterLine(sequence: string, k: nat)
    requires 1 <= k && 60 * k <= |sequence| < 1000000000
    ensures 81 * k <= |Body(sequence)|
    ensures EndsWith(Body(sequence)[..81 * k], RJust(NatStr(60 * k), 9) + "\n")
  {
    var s := Lower(sequence);
    var lines := FullLines(s, k);
    BodyHasFullLines(sequence, k);
    FullLinesLength(s, k);
    PrefixTake(lines, Body(sequence));
    FullLinesEnd(s, k, 60 * k);
  }

  /** The unfinished last line closes with the length and the newline. */
  lemma LastLineEnds(s: string, q: nat)
    requires 60 * q <= |s| < 60 * q + 60
    ensures EndsWith(LastLine(s, q), RJust(NatStr(|s|), 9) + "\n")
  {
    var front := Indent + Grouped(s[60 * q..]) + Spaces(LastPad(|s| - 60 * q));
    var counter := RJust(NatStr(|s|), 9);
    Assoc3(front, counter, "\n");
    EndsWithAppend(front, counter + "\n");
  }

  /** The last counter is always the length of the sequence (0 when it is
      empty), and the body always ends with a newline. */
  lemma BodyEndsWithLength(sequence: string)
    ensures EndsWith(Body(sequence), RJust(NatStr(|sequence|), 9) + "\n")
  {
    var n := |sequence|;
    var q := FullLineCount(n);
    if n > 0 && n == 60 * q {
      EndsFull(sequence, q);
    } else {
      EndsPartial(sequence, q);
    }
  }

  lemma EndsFull(sequence: string, q: nat)
    requires |sequence| == 60 * q && q > 0
    ensures EndsWith(Body(sequence), RJust(NatStr(|sequence|), 9) + "\n")
  {
    BodyWhenFull(sequence, q);
    FullLinesEnd(Lower(sequence), q, |sequence|);
  }

  lemma EndsPartial(sequence: string, q: nat)
    requires 60 * q <= |sequence| < 60 * q + 60 && (|sequence| > 60 * q || q == 0)
    ensures EndsWith(Body(sequence), RJust(NatStr(|sequence|), 9) + "\n")
  {
    var s := Lower(sequence);
    BodyWhenPartial(sequence, q);
    LastLineEnds(s, q);
    EndsWithAppend(FullLines(s, q), LastLine(s, q));
    EndsWithTrans(Body(sequence), LastLine(s, q), RJust(NatStr(|s|), 9) + "\n");
  }

  /** The padding of the last line is never negative: the counter never
      runs into the bases. */
  lemma PadNonNegative(r: nat)
    requires r < 60
    ensures LastPad(r) >= 2
  {
  }

  /** The unfinished last line is `LastLineWidth` wide before its counter. */
  lemma LastLineLength(s: string, q: nat)
    requires 60 * q <= |s| < 60 * q + 60 && |s| < 1000000000
    ensures |LastLine(s, q)| == LastLineWidth(|s| - 60 * q) + 10
  {
    var r := |s| - 60 * q;
    CounterFitsNine(|s|);
    PadNonNegative(r);
    assert |s[60 * q..]| == r;
  }

  /** The length of the body: `q` full lines of 81 characters and, unless
      the length is a positive multiple of 60, a last line `LastLineWidth`
      wide before its nine-wide counter and newline. */
  lemma BodyLength(sequence: string, q: nat)
    requires 60 * q <= |sequence| < 60 * q + 60 && |sequence| < 1000000000
    ensures |sequence| > 0 && |sequence| == 60 * q ==> |Body(sequence)| == 81 * q
    ensures !(|sequence| > 0 && |sequence| == 60 * q) ==>
      |Body(sequence)| == 81 * q + LastLineWidth(|sequence| - 60 * q) + 10
  {
    var s := Lower(sequence);
    FullLinesLength(s, q);
    if |s| > 0 && |s| == 60 * q {
      BodyWhenFull(sequence, q);
    } else {
      BodyWhenPartial(sequence, q);
      LastLineLength(s, q);
    }
  }

  /** A slice of a string that avoids `c` avoids it too. */
  lemma SliceAvoids(s: string, a: nat, b: nat, c: char)
    requires a <= b <= |s| && c !in s
    ensures c !in s[a..b]
  {
    forall k | 0 <= k < b - a
      ensures s[a..b][k] != c
    {
      assert s[a..b][k] == s[a + k];
    }
  }

  /** A full line holds no `c` when the bases hold none and `c` is not a
      blank, a digit or a newline. */
  lemma FullLineAvoids(s: string, m: nat, c: char)
    requires 60 * m + 60 <= |s| && c !in s && c !in Indent && c != '\n' && !IsDigit(c) && c != ' '
    ensures c !in FullLine(s, m)
  {
    SliceAvoids(s, 60 * m, 60 * m + 60, c);
    GroupedAvoids(s[60 * m..60 * m + 60], c);
    RJustAvoids(60 * m + 60, 9, c);
  }

  /** The same for the unfinished last line. */
  lemma LastLineAvoids(s: string, q: nat, c: char)
    requires 60 * q <= |s| < 60 * q + 60 && c !in s && c !in Indent && c != '\n' && !IsDigit(c) && c != ' '
    ensures c !in LastLine(s, q)
  {
    SliceAvoids(s, 60 * q, |s|, c);
    assert s[60 * q..] == s[60 * q..|s|];
    GroupedAvoids(s[60 * q..], c);
    RJustAvoids(|s|, 9, c);
    SpacesBlank(LastPad(|s| - 60 * q));
  }

  /** No full line holds an upper-case `A` when the bases hold none. */
  lemma {:induction false} FullLinesAvoidA(s: string, k: nat)
    requires 60 * k <= |s| && 'A' !in s
    ensures 'A' !in FullLines(s, k)
  {
    if k > 0 {
      FullLinesAvoidA(s, k - 1);
      IndentAvoids('A');
      FullLineAvoids(s, k - 1, 'A');
      FullLinesStepAvoids(s, k, 'A');
    }
  }

  lemma FullLinesStepAvoids(s: string, k: nat, c: char)
    requires 0 < k && 60 * k <= |s| && c !in FullLines(s, k - 1) && c !in FullLine(s, k - 1)
    ensures c !in FullLines(s, k)
  {
  }

  lemma IndentAvoids(c: char)
    requires c != ' '
    ensures c !in Indent
  {
  }

  /** The body never holds an upper-case `A`: it is made of lower-cased
      bases, blanks, digits and newlines. */
  lemma BodyAvoidsA(sequence: string)
    ensures 'A' !in Body(sequence)
  {
    var s := Lower(sequence);
    LowerAvoidsA(sequence);
    var n := |s|;
    var q := FullLineCount(n);
    FullLinesAvoidA(s, q);
    if n > 0 && n == 60 * q {
      BodyWhenFull(sequence, q);
    } else {
      BodyWhenPartial(sequence, q);
      IndentAvoids('A');
      LastLineAvoids(s, q, 'A');
    }
  }
}
