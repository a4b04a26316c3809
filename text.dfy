/** String helpers that stand in for the Python 2 string operations the
    renderer uses: `lower`, `count`, `split`, `replace`, `%d`, `%9s`,
    `' ' * n`, `readlines` and the `\w` character class of `re`. */
module Text {

  datatype Option<T> = None | Some(value: T)

  // ---------------------------------------------------------------------
  // Characters

  /** Python 2 `str.lower` on one character: only ASCII upper case moves. */
  function LowerChar(c: char): (r: char)
    ensures r != 'A'
    ensures 'A' <= c <= 'Z' ==> r as int == c as int + 32
    ensures !('A' <= c <= 'Z') ==> r == c
  {
    if 'A' <= c <= 'Z' then (c as int + 32) as char else c
  }

  function Lower(s: string): (r: string)
    ensures |r| == |s|
  {
    seq(|s|, k requires 0 <= k < |s| => LowerChar(s[k]))
  }

  lemma LowerAt(s: string, k: nat)
    requires k < |s|
    ensures Lower(s)[k] == LowerChar(s[k])
  {
  }

  /** Lower-casing twice is lower-casing once. */
  lemma LowerIdempotent(s: string)
    ensures Lower(Lower(s)) == Lower(s)
  {
    forall k | 0 <= k < |s| ensures Lower(Lower(s))[k] == Lower(s)[k] {
      LowerAt(s, k);
      LowerAt(Lower(s), k);
    }
  }

  /** Lower-casing works character by character, so it distributes over
      concatenation. */
  lemma LowerAppend(a: string, b: string)
    ensures Lower(a + b) == Lower(a) + Lower(b)
  {
    forall k | 0 <= k < |a + b| ensures Lower(a + b)[k] == (Lower(a) + Lower(b))[k] {
      LowerAt(a + b, k);
      if k < |a| {
        LowerAt(a, k);
      } else {
        LowerAt(b, k - |a|);
      }
    }
  }

  /** A lower-cased string holds no upper-case `A`. */
  lemma LowerAvoidsA(s: string)
    ensures 'A' !in Lower(s)
  {
    forall k | 0 <= k < |s| ensures Lower(s)[k] != 'A' {
      LowerAt(s, k);
    }
  }

  /** The `\w` class of Python 2 `re` without the UNICODE flag. */
  predicate IsWordChar(c: char) {
    ('a' <= c <= 'z') || ('A' <= c <= 'Z') || ('0' <= c <= '9') || c == '_'
  }

  /** The whitespace `textwrap` recognises: space, tab, newline, vertical tab, form feed, carriage return. */
  predicate IsWhitespace(c: char) {
    c == ' ' || ('\t' <= c <= '\r')
  }

  predicate IsDigit(c: char) {
    '0' <= c <= '9'
  }

  // ---------------------------------------------------------------------
  // Counting

  /** `s.count(x)` for a one-character `x`. */
  function Count(s: string, x: char): (n: nat)
    ensures n <= |s|
  {
    if s == [] then 0 else (if s[0] == x then 1 else 0) + Count(s[1..], x)
  }

  lemma {:induction false} CountAppend(s: string, t: string, x: char)
    ensures Count(s + t, x) == Count(s, x) + Count(t, x)
  {
    if s != [] {
      assert (s + t)[1..] == s[1..] + t;
      CountAppend(s[1..], t, x);
    } else {
      assert s + t == t;
    }
  }

  // ---------------------------------------------------------------------
  // Blanks and numbers

  /** `' ' * n`: the empty string when `n <= 0`. */
  function Spaces(n: int): (r: string)
    ensures |r| == if n <= 0 then 0 else n
    decreases if n <= 0 then 0 else n
  {
    if n <= 0 then "" else " " + Spaces(n - 1)
  }

  function Digit(d: nat): (c: char)
    requires d < 10
    ensures IsDigit(c)
  {
    ('0' as int + d) as char
  }

  function DigitValue(c: char): int
  {
    c as int - '0' as int
  }

  /** `"%d" % n` for a non-negative `n`. */
  function NatStr(n: nat): (r: string)
    ensures |r| >= 1
  {
    if n < 10 then [Digit(n)] else NatStr(n / 10) + [Digit(n % 10)]
  }

  lemma {:induction false} NatStrDigits(n: nat)
    ensures forall k :: 0 <= k < |NatStr(n)| ==> IsDigit(NatStr(n)[k])
  {
    if n >= 10 {
      NatStrDigits(n / 10);
    }
  }

  /** Blanks and digits only: a right-justified number. */
  lemma RJustNatStr(n: nat, width: nat)
    ensures forall k :: 0 <= k < |RJust(NatStr(n), width)| ==>
      RJust(NatStr(n), width)[k] == ' ' || IsDigit(RJust(NatStr(n), width)[k])
  {
    NatStrDigits(n);
    SpacesBlank(width - |NatStr(n)|);
  }

  /** A number's digits hold no character other than digits. */
  lemma NatStrAvoids(n: nat, c: char)
    requires !IsDigit(c)
    ensures c !in NatStr(n)
  {
    NatStrDigits(n);
  }

  /** Nor does the number right-justified with blanks. */
  lemma RJustAvoids(n: nat, width: nat, c: char)
    requires !IsDigit(c) && c != ' '
    ensures c !in RJust(NatStr(n), width)
  {
    RJustNatStr(n, width);
  }

  lemma {:induction false} SpacesBlank(n: int)
    ensures forall k :: 0 <= k < |Spaces(n)| ==> Spaces(n)[k] == ' '
    decreases if n <= 0 then 0 else n
  {
    if n > 0 {
      SpacesBlank(n - 1);
    }
  }

  /** Reads a string of decimal digits back, most significant first. */
  function ParseNat(s: string): int
  {
    if s == [] then 0 else 10 * ParseNat(s[..|s| - 1]) + DigitValue(s[|s| - 1])
  }

  /** Decimal printing is undone by reading the digits back. */
  lemma {:induction false} ParseNatStr(n: nat)
    ensures ParseNat(NatStr(n)) == n
  {
    if n >= 10 {
      var s := NatStr(n);
      assert s[..|s| - 1] == NatStr(n / 10);
      ParseNatStr(n / 10);
    }
  }

  /** A number below 10^9 prints in at most nine digits, so `%9s` pads it. */
  lemma {:induction false} NatStrWidth(n: nat, bound: nat, width: nat)
    requires n < bound
    requires bound == Pow10(width)
    requires width >= 1
    ensures |NatStr(n)| <= width
  {
    if n >= 10 {
      assert Pow10(1) == 10;
      assert width >= 2;
      assert Pow10(width) == 10 * Pow10(width - 1);
      NatStrWidth(n / 10, Pow10(width - 1), width - 1);
    }
  }

  /** Every counter of a sequence shorter than 10^9 bases fits the nine-wide `%9s` field. */
  lemma CounterFitsNine(n: nat)
    requires n < 1000000000
    ensures |NatStr(n)| <= 9
  {
    assert Pow10(1) == 10;
    assert Pow10(2) == 100;
    assert Pow10(3) == 1000;
    assert Pow10(4) == 10000;
    assert Pow10(5) == 100000;
    assert Pow10(6) == 1000000;
    assert Pow10(7) == 10000000;
    assert Pow10(8) == 100000000;
    assert Pow10(9) == 1000000000;
    NatStrWidth(n, Pow10(9), 9);
  }

  function Pow10(k: nat): (p: nat)
    ensures p >= 1
  {
    if k == 0 then 1 else 10 * Pow10(k - 1)
  }

  /** `"%9s" % x` style right justification: never truncates. */
  function RJust(s: string, width: nat): (r: string)
    ensures |s| <= width ==> |r| == width
    ensures |s| > width ==> r == s
  {
    Spaces(width - |s|) + s
  }

  /** Justifying to the right keeps the text at the right end, behind blanks only. */
  lemma RJustLayout(s: string, width: nat)
    requires |s| <= width
    ensures RJust(s, width)[width - |s|..] == s
    ensures forall k :: 0 <= k < width - |s| ==> RJust(s, width)[k] == ' '
  {
    SpacesBlank(width - |s|);
  }

  // ---------------------------------------------------------------------
  // Prefixes, substrings, split and replace

  predicate StartsWith(s: string, prefix: string) {
    |prefix| <= |s| && s[..|prefix|] == prefix
  }

  lemma StartsWithAppend(a: string, b: string, prefix: string)
    requires StartsWith(a, prefix)
    ensures StartsWith(a + b, prefix)
  {
    assert (a + b)[..|prefix|] == a[..|prefix|];
  }

  /** Whether `pattern` occurs in `s` (a `re.search` of a pattern without metacharacters). */
  predicate Contains(s: string, pattern: string)
    decreases |s|
  {
    StartsWith(s, pattern) || (s != [] && Contains(s[1..], pattern))
  }

  /** `s.split(sep)` for a one-character separator: never empty. */
  function Split(s: string, sep: char): (r: seq<string>)
    ensures |r| >= 1
  {
    if s == [] then [""]
    else if s[0] == sep then [""] + Split(s[1..], sep)
    else
      var rest := Split(s[1..], sep);
      [[s[0]] + rest[0]] + rest[1..]
  }

  /** `sep.join(parts)`. */
  function Join(parts: seq<string>, sep: char): string
  {
    if parts == [] then ""
    else if |parts| == 1 then parts[0]
    else parts[0] + [sep] + Join(parts[1..], sep)
  }

  /** Splitting loses nothing: joining the pieces again gives the input. */
  lemma {:induction false} JoinSplit(s: string, sep: char)
    ensures Join(Split(s, sep), sep) == s
  {
    if s != [] {
      var rest := Split(s[1..], sep);
      JoinSplit(s[1..], sep);
      if s[0] == sep {
        assert Split(s, sep) == [""] + rest;
      } else {
        var r := Split(s, sep);
        assert r == [[s[0]] + rest[0]] + rest[1..];
        if |rest| == 1 {
          assert Join(rest, sep) == rest[0];
        } else {
          assert Join(rest, sep) == rest[0] + [sep] + Join(rest[1..], sep);
          assert r[1..] == rest[1..];
        }
      }
    }
  }

  /** No piece holds the separator. */
  lemma {:induction false} SplitPiecesAvoid(s: string, sep: char)
    ensures forall k :: 0 <= k < |Split(s, sep)| ==> sep !in Split(s, sep)[k]
  {
    if s != [] {
      SplitPiecesAvoid(s[1..], sep);
    }
  }
  /** `t`, the last of `count` pieces `s` splits into, is the longest suffix
      of `s` free of the separator: the whole text when there is no
      separator, otherwise what follows the last one. */
  predicate LastPiece(s: string, sep: char, count: nat, t: string) {
    sep !in t && EndsWith(s, t)
    && (count == 1 ==> t == s)
    && (count > 1 ==> |t| < |s| && s[|s| - |t| - 1] == sep)
  }

  lemma {:induction false} SplitLast(s: string, sep: char)
    ensures LastPiece(s, sep, |Split(s, sep)|, Split(s, sep)[|Split(s, sep)| - 1])
  {
    if s != [] {
      SplitLast(s[1..], sep);
      if s[0] == sep {
        SplitLastAtSep(s, sep);
      } else {
        SplitLastInPiece(s, sep);
      }
    }
  }

  lemma SplitLastAtSep(s: string, sep: char)
    requires s != [] && s[0] == sep
    requires LastPiece(s[1..], sep, |Split(s[1..], sep)|, Split(s[1..], sep)[|Split(s[1..], sep)| - 1])
    ensures LastPiece(s, sep, |Split(s, sep)|, Split(s, sep)[|Split(s, sep)| - 1])
  {
    var rest := Split(s[1..], sep);
    var t := rest[|rest| - 1];
    assert Split(s, sep) == [""] + rest;
    assert s[|s| - |t|..] == s[1..][|s| - 1 - |t|..];
  }

  lemma SplitLastInPiece(s: string, sep: char)
    requires s != [] && s[0] != sep
    requires LastPiece(s[1..], sep, |Split(s[1..], sep)|, Split(s[1..], sep)[|Split(s[1..], sep)| - 1])
    ensures LastPiece(s, sep, |Split(s, sep)|, Split(s, sep)[|Split(s, sep)| - 1])
  {
    var rest := Split(s[1..], sep);
    var t := rest[|rest| - 1];
    assert Split(s, sep) == [[s[0]] + rest[0]] + rest[1..];
    if |rest| == 1 {
      assert [s[0]] + s[1..] == s;
    } else {
      assert s[|s| - |t|..] == s[1..][|s| - 1 - |t|..];
    }
  }

  /** A string without the separator splits into itself alone. */
  lemma {:induction false} SplitNoSep(s: string, sep: char)
    requires sep !in s
    ensures Split(s, sep) == [s]
  {
    if s != [] {
      SplitNoSep(s[1..], sep);
      assert [s[0]] + s[1..] == s;
    }
  }

  /** `Split` read from the first character. */
  lemma SplitCons(c: char, t: string, sep: char)
    ensures c == sep ==> Split([c] + t, sep) == [""] + Split(t, sep)
    ensures c != sep ==> Split([c] + t, sep) == [[c] + Split(t, sep)[0]] + Split(t, sep)[1..]
  {
    assert ([c] + t)[1..] == t;
  }

  /** Splitting at a separator placed between two strings splits each of them. */
  lemma {:induction false} SplitAround(a: string, b: string, sep: char)
    ensures Split(a + [sep] + b, sep) == Split(a, sep) + Split(b, sep)
  {
    if a == [] {
      assert a + [sep] + b == [sep] + b;
      SplitCons(sep, b, sep);
    } else {
      SplitAround(a[1..], b, sep);
      SplitAroundStep(a, b, sep, a[1..] + [sep] + b);
    }
  }

  lemma SplitAroundStep(a: string, b: string, sep: char, t: string)
    requires a != [] && t == a[1..] + [sep] + b
    requires Split(t, sep) == Split(a[1..], sep) + Split(b, sep)
    ensures Split(a + [sep] + b, sep) == Split(a, sep) + Split(b, sep)
  {
    ConsShape(a, b, sep, t);
    SplitConsAround(a[0], a[1..], t, Split(b, sep), sep);
  }

  lemma ConsShape(a: string, b: string, sep: char, t: string)
    requires a != [] && t == a[1..] + [sep] + b
    ensures a + [sep] + b == [a[0]] + t && a == [a[0]] + a[1..]
  {
  }

  lemma SplitConsAround(c: char, u: string, t: string, y: seq<string>, sep: char)
    requires Split(t, sep) == Split(u, sep) + y
    ensures Split([c] + t, sep) == Split([c] + u, sep) + y
  {
    SplitCons(c, t, sep);
    SplitCons(c, u, sep);
    if c != sep {
      SplitGlue([c], Split(u, sep), y);
    } else {
      AppendAssoc([""], Split(u, sep), y);
    }
  }

  lemma TakeShorter<T>(s: seq<T>, k: nat)
    requires k < |s|
    ensures s[..k + 1][..k] == s[..k]
  {
  }

  lemma TakeAll<T>(s: seq<T>)
    ensures s[..|s|] == s
  {
  }

  lemma AppendAssoc<T>(a: seq<T>, b: seq<T>, c: seq<T>)
    ensures a + (b + c) == a + b + c
  {
  }

  /** The first piece grows by the character read, the others stay as they are. */
  lemma SplitGlue(c: string, x: seq<string>, y: seq<string>)
    requires x != []
    ensures [c + (x + y)[0]] + (x + y)[1..] == [c + x[0]] + x[1..] + y
  {
    assert (x + y)[0] == x[0];
    assert (x + y)[1..] == x[1..] + y;
  }

  lemma {:induction false} JoinAppend(a: seq<string>, b: seq<string>, sep: char)
    requires a != [] && b != []
    ensures Join(a + b, sep) == Join(a, sep) + [sep] + Join(b, sep)
  {
    if |a| == 1 {
      assert (a + b)[1..] == b;
    } else {
      assert (a + b)[1..] == a[1..] + b;
      JoinAppend(a[1..], b, sep);
    }
  }

  /** `s.replace(pattern, replacement)`: every non-overlapping occurrence, left to right. */
  function Replace(s: string, pattern: string, replacement: string): string
    requires |pattern| > 0
    decreases |s|
  {
    if |s| < |pattern| then s
    else if StartsWith(s, pattern) then replacement + Replace(s[|pattern|..], pattern, replacement)
    else [s[0]] + Replace(s[1..], pattern, replacement)
  }

  /** Replacing a pattern that does not occur changes nothing. */
  lemma {:induction false} ReplaceAbsent(s: string, pattern: string, replacement: string)
    requires |pattern| > 0
    requires !Contains(s, pattern)
    ensures Replace(s, pattern, replacement) == s
  {
    if |s| >= |pattern| {
      ReplaceAbsent(s[1..], pattern, replacement);
      assert [s[0]] + s[1..] == s;
    }
  }

  /** A character in neither the input nor the replacement is not in the output. */
  lemma {:induction false} ReplaceKeepsOut(s: string, pattern: string, replacement: string, c: char)
    requires |pattern| > 0
    requires c !in s && c !in replacement
    ensures c !in Replace(s, pattern, replacement)
  {
    if |s| >= |pattern| {
      if StartsWith(s, pattern) {
        ReplaceKeepsOut(s[|pattern|..], pattern, replacement, c);
      } else {
        ReplaceKeepsOut(s[1..], pattern, replacement, c);
      }
    }
  }

  // ---------------------------------------------------------------------
  // Word characters

  /** `re.sub(r'\W+', '', s)`: the word characters of `s`, in order. */
  function FilterWord(s: string): (r: string)
    ensures |r| <= |s|
    ensures forall k :: 0 <= k < |r| ==> IsWordChar(r[k])
  {
    if s == [] then ""
    else (if IsWordChar(s[0]) then [s[0]] else "") + FilterWord(s[1..])
  }

  /** One character is kept exactly when it is a word character. */
  lemma FilterWordChar(c: char)
    ensures FilterWord([c]) == if IsWordChar(c) then [c] else []
  {
    assert [c][1..] == [];
  }

  /** Filtering works character by character: the filter of a concatenation
      is the concatenation of the filters, so every word character is kept,
      in order, and only the others are dropped. */
  lemma {:induction false} FilterWordAppend(a: string, b: string)
    ensures FilterWord(a + b) == FilterWord(a) + FilterWord(b)
  {
    if a == [] {
      assert a + b == b;
    } else {
      assert (a + b)[0] == a[0];
      assert (a + b)[1..] == a[1..] + b;
      FilterWordAppend(a[1..], b);
    }
  }

  /** Every word character occurs in the filtered text as often as in the
      original, and no other character occurs at all. */
  lemma {:induction false} FilterWordCounts(s: string, c: char)
    ensures Count(FilterWord(s), c) == if IsWordChar(c) then Count(s, c) else 0
  {
    if s != [] {
      FilterWordCounts(s[1..], c);
      var head: string := if IsWordChar(s[0]) then [s[0]] else "";
      CountAppend(head, FilterWord(s[1..]), c);
      if IsWordChar(s[0]) {
        assert [s[0]][1..] == [];
      }
    }
  }

  /** A string of word characters is left as it is, so filtering twice is filtering once. */
  lemma {:induction false} FilterWordKeepsWords(s: string)
    requires forall k :: 0 <= k < |s| ==> IsWordChar(s[k])
    ensures FilterWord(s) == s
  {
    if s != [] {
      FilterWordKeepsWords(s[1..]);
    }
  }

  /** The longest prefix of word characters (what a greedy `\w+` matches). */
  function WordPrefix(s: string): (r: string)
    ensures |r| <= |s| && r == s[..|r|]
    ensures forall k :: 0 <= k < |r| ==> IsWordChar(r[k])
    ensures |r| < |s| ==> !IsWordChar(s[|r|])
  {
    if s == [] || !IsWordChar(s[0]) then "" else [s[0]] + WordPrefix(s[1..])
  }

  /** The greedy match stops exactly at the first non-word character. */
  lemma {:induction false} WordPrefixOfWord(w: string, rest: string)
    requires forall k :: 0 <= k < |w| ==> IsWordChar(w[k])
    requires rest == [] || !IsWordChar(rest[0])
    ensures WordPrefix(w + rest) == w
  {
    if w != [] {
      assert (w + rest)[1..] == w[1..] + rest;
      WordPrefixOfWord(w[1..], rest);
    }
  }

  // ---------------------------------------------------------------------
  // Concatenation and lines

  function Concat(parts: seq<string>): string
  {
    if parts == [] then "" else Concat(parts[..|parts| - 1]) + parts[|parts| - 1]
  }

  /** Joins lines, terminating each with a newline (how the multi-line templates are laid out). */
  function Unlines(lines: seq<string>): string
  {
    if lines == [] then "" else lines[0] + "\n" + Unlines(lines[1..])
  }

  predicate EndsWith(s: string, suffix: string) {
    |suffix| <= |s| && s[|s| - |suffix|..] == suffix
  }

  lemma EndsWithAppend(a: string, b: string)
    ensures EndsWith(a + b, b)
  {
    assert (a + b)[|a + b| - |b|..] == b;
  }

  lemma EndsWithTrans(s: string, t: string, u: string)
    requires EndsWith(s, t) && EndsWith(t, u)
    ensures EndsWith(s, u)
  {
    assert s[|s| - |u|..] == t[|t| - |u|..];
  }

  predicate EndsWithNewline(s: string) {
    s != [] && s[|s| - 1] == '\n'
  }

  /** Length of the first line of `s`, its newline included. */
  function LineLength(s: string): (n: nat)
    requires s != []
    ensures 0 < n <= |s|
    ensures '\n' !in s[..n - 1]
    ensures n < |s| ==> s[n - 1] == '\n'
  {
    if s[0] == '\n' || |s| == 1 then 1 else 1 + LineLength(s[1..])
  }

  /** `file.readlines()`: the lines of `s`, each keeping its newline; a last line without one is kept. */
  function ReadLines(s: string): seq<string>
    decreases |s|
  {
    if s == [] then [] else [s[..LineLength(s)]] + ReadLines(s[LineLength(s)..])
  }

  lemma {:induction false} LineLengthAppend(a: string, b: string)
    requires EndsWithNewline(a)
    ensures LineLength(a + b) == LineLength(a)
  {
    if a[0] != '\n' {
      assert |a| > 1;
      assert (a + b)[1..] == a[1..] + b;
      LineLengthAppend(a[1..], b);
    }
  }

  /** Reading lines distributes over text that is cut at a line end. */
  lemma {:induction false} ReadLinesAppend(a: string, b: string)
    requires a == [] || EndsWithNewline(a)
    ensures ReadLines(a + b) == ReadLines(a) + ReadLines(b)
    decreases |a|
  {
    if a == [] {
      assert a + b == b;
    } else {
      var ab := a + b;
      var n := LineLength(a);
      LineLengthAppend(a, b);
      var a2 := a[n..];
      calc {
        ReadLines(ab);
        [ab[..n]] + ReadLines(ab[n..]);
        { assert ab[..n] == a[..n]; assert ab[n..] == a2 + b; }
        [a[..n]] + ReadLines(a2 + b);
        { assert a2 == [] || EndsWithNewline(a2);
          ReadLinesAppend(a2, b); }
        [a[..n]] + (ReadLines(a2) + ReadLines(b));
        ([a[..n]] + ReadLines(a2)) + ReadLines(b);
        ReadLines(a) + ReadLines(b);
      }
    }
  }

  /** A single line without an inner newline reads back as exactly one line. */
  lemma ReadOneLine(line: string)
    requires '\n' !in line
    ensures ReadLines(line + "\n") == [line + "\n"]
  {
    var s := line + "\n";
    var n := LineLength(s);
    assert forall k :: 0 <= k < |line| ==> s[k] == line[k] && s[k] != '\n';
    assert n == |s|;
    assert s[n..] == [] && s[..n] == s;
    assert ReadLines(s) == [s[..n]] + ReadLines(s[n..]);
  }

  /** Reading back text laid out by `Unlines` gives the lines again, each with its newline. */
  lemma {:induction false} ReadLinesUnlines(lines: seq<string>)
    requires forall k :: 0 <= k < |lines| ==> '\n' !in lines[k]
    ensures |ReadLines(Unlines(lines))| == |lines|
    ensures forall k :: 0 <= k < |lines| ==> ReadLines(Unlines(lines))[k] == lines[k] + "\n"
  {
    if lines != [] {
      ReadOneLine(lines[0]);
      ReadLinesAppend(lines[0] + "\n", Unlines(lines[1..]));
      assert Unlines(lines) == (lines[0] + "\n") + Unlines(lines[1..]);
      ReadLinesUnlines(lines[1..]);
    }
  }

  /** Every line with its newline. */
  function Suffixed(lines: seq<string>): (r: seq<string>)
    ensures |r| == |lines|
    ensures forall k :: 0 <= k < |lines| ==> r[k] == lines[k] + "\n"
  {
    seq(|lines|, k requires 0 <= k < |lines| => lines[k] + "\n")
  }

  /** No line holds a newline of its own. */
  predicate OneLineEach(lines: seq<string>) {
    forall k :: 0 <= k < |lines| ==> '\n' !in lines[k]
  }

  lemma ReadLinesSuffixed(lines: seq<string>)
    requires OneLineEach(lines)
    ensures ReadLines(Unlines(lines)) == Suffixed(lines)
  {
    ReadLinesUnlines(lines);
  }

  lemma {:induction false} UnlinesAppend(a: seq<string>, b: seq<string>)
    ensures Unlines(a + b) == Unlines(a) + Unlines(b)
  {
    if a != [] {
      assert (a + b)[1..] == a[1..] + b;
      UnlinesAppend(a[1..], b);
      assert Unlines(a + b) == a[0] + "\n" + Unlines(a[1..] + b);
    } else {
      assert a + b == b;
    }
  }

  lemma UnlinesOne(line: string)
    ensures Unlines([line]) == line + "\n"
  {
    assert [line][1..] == [];
  }

  lemma UnlinesEnds(lines: seq<string>)
    ensures Unlines(lines) == [] || EndsWithNewline(Unlines(lines))
  {
  }

  /** Every line read from `s` is a piece of `s`, so a character absent from `s` is absent from each line. */
  lemma {:induction false} ReadLinesAvoid(s: string, c: char)
    requires c !in s
    ensures forall k :: 0 <= k < |ReadLines(s)| ==> c !in ReadLines(s)[k]
    decreases |s|
  {
    if s != [] {
      var n := LineLength(s);
      assert c !in s[n..] by {
        forall k | 0 <= k < |s| - n ensures s[n..][k] != c { assert s[n..][k] == s[n + k]; }
      }
      ReadLinesAvoid(s[n..], c);
    }
  }
}
