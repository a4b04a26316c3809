/** A greedy line filler standing in for Python's `textwrap.wrap(text, width)`:
    the text is cut into its words (runs of non-whitespace), a word longer
    than the width is cut into width-sized pieces, and the pieces are put on
    lines left to right, one blank between neighbours, a new line being
    started whenever the next piece would not fit. */
module TextWrap {
  import opened Text

  /** No whitespace at all in `t`. */
  predicate Solid(t: string) {
    forall k :: 0 <= k < |t| ==> !IsWhitespace(t[k])
  }

  /** The non-whitespace characters of `s`, in order. */
  function Squeeze(s: string): (r: string)
    ensures |r| <= |s|
  {
    if s == [] then "" else (if IsWhitespace(s[0]) then "" else [s[0]]) + Squeeze(s[1..])
  }

  lemma {:induction false} SqueezeAppend(a: string, b: string)
    ensures Squeeze(a + b) == Squeeze(a) + Squeeze(b)
  {
    if a != [] {
      assert (a + b)[0] == a[0];
      assert (a + b)[1..] == a[1..] + b;
      SqueezeAppend(a[1..], b);
    } else {
      assert a + b == b;
    }
  }

  lemma {:induction false} SqueezeSolid(t: string)
    requires Solid(t)
    ensures Squeeze(t) == t
  {
    if t != [] {
      SqueezeSolid(t[1..]);
    }
  }

  /** Length of the leading run of non-whitespace characters. */
  function RunLength(s: string): (n: nat)
    ensures n <= |s|
    ensures Solid(s[..n])
    ensures n < |s| ==> IsWhitespace(s[n])
  {
    if s == [] || IsWhitespace(s[0]) then 0
    else
      var m := RunLength(s[1..]);
      assert s[..m + 1] == [s[0]] + s[1..][..m];
      m + 1
  }

  function Min(a: nat, b: nat): nat {
    if a <= b then a else b
  }

  /** The pieces the text is filled with: its words, each cut into pieces of
      at most `width` characters. */
  function Tokens(s: string, width: nat): (r: seq<string>)
    requires width >= 1
    ensures forall k :: 0 <= k < |r| ==> 1 <= |r[k]| <= width && Solid(r[k])
    decreases |s|
  {
    if s == [] then []
    else if IsWhitespace(s[0]) then Tokens(s[1..], width)
    else
      var n := Min(RunLength(s), width);
      assert Solid(s[..n]) by {
        assert forall k :: 0 <= k < n ==> s[..n][k] == s[..RunLength(s)][k];
      }
      [s[..n]] + Tokens(s[n..], width)
  }

  lemma {:induction false} ConcatAppend(a: seq<string>, b: seq<string>)
    ensures Concat(a + b) == Concat(a) + Concat(b)
  {
    if b != [] {
      assert (a + b)[..|a + b| - 1] == a + b[..|b| - 1];
      ConcatAppend(a, b[..|b| - 1]);
    } else {
      assert a + b == a;
    }
  }

  lemma ConcatCons(x: string, rest: seq<string>)
    ensures Concat([x] + rest) == x + Concat(rest)
  {
    ConcatAppend([x], rest);
    assert [x][..0] == [];
  }

  /** Cutting into pieces loses no character and adds none but drops the whitespace. */
  lemma {:induction false} TokensContent(s: string, width: nat)
    requires width >= 1
    ensures Concat(Tokens(s, width)) == Squeeze(s)
    decreases |s|
  {
    if s != [] {
      if IsWhitespace(s[0]) {
        TokensContent(s[1..], width);
      } else {
        var n := Min(RunLength(s), width);
        assert Solid(s[..n]) by {
          assert forall k :: 0 <= k < n ==> s[..n][k] == s[..RunLength(s)][k];
        }
        TokensContent(s[n..], width);
        ConcatCons(s[..n], Tokens(s[n..], width));
        assert s == s[..n] + s[n..];
        SqueezeAppend(s[..n], s[n..]);
        SqueezeSolid(s[..n]);
      }
    }
  }

  /** The greedy filler: `line` is the line being built (empty before the
      first piece). */
  function FillFrom(tokens: seq<string>, line: string, width: nat): (r: seq<string>)
    requires forall k :: 0 <= k < |tokens| ==> 1 <= |tokens[k]| <= width
    requires |line| <= width
    ensures forall k :: 0 <= k < |r| ==> 1 <= |r[k]| <= width
    ensures r == [] <==> tokens == [] && line == []
    decreases |tokens|
  {
    if tokens == [] then (if line == [] then [] else [line])
    else if line == [] then FillFrom(tokens[1..], tokens[0], width)
    else if |line| + 1 + |tokens[0]| <= width then FillFrom(tokens[1..], line + " " + tokens[0], width)
    else [line] + FillFrom(tokens[1..], tokens[0], width)
  }

  /** `textwrap.wrap(text, width)`. */
  function Wrap(text: string, width: nat): (lines: seq<string>)
    requires width >= 1
  {
    FillFrom(Tokens(text, width), "", width)
  }

  lemma JoinCons(x: string, rest: seq<string>, sep: char)
    requires rest != []
    ensures Join([x] + rest, sep) == x + [sep] + Join(rest, sep)
  {
    assert ([x] + rest)[1..] == rest;
  }

  /** Filling only decides where the lines break: joined with blanks, the
      lines give back the line in progress and the pieces joined with blanks. */
  lemma {:induction false} FillJoin(tokens: seq<string>, line: string, width: nat)
    requires forall k :: 0 <= k < |tokens| ==> 1 <= |tokens[k]| <= width
    requires |line| <= width
    ensures line == [] ==> Join(FillFrom(tokens, line, width), ' ') == Join(tokens, ' ')
    ensures line != [] ==> Join(FillFrom(tokens, line, width), ' ') == Join([line] + tokens, ' ')
    decreases |tokens|
  {
    if tokens != [] {
      var t := tokens[0];
      var rest := tokens[1..];
      assert tokens == [t] + rest;
      if line == [] {
        FillJoin(rest, t, width);
      } else if |line| + 1 + |t| <= width {
        FillJoin(rest, line + " " + t, width);
        if rest != [] {
          JoinCons(line + " " + t, rest, ' ');
          JoinCons(t, rest, ' ');
          JoinCons(line, tokens, ' ');
        } else {
          JoinCons(line, tokens, ' ');
        }
      } else {
        FillJoin(rest, t, width);
        JoinCons(line, FillFrom(rest, t, width), ' ');
        JoinCons(line, tokens, ' ');
      }
    }
  }

  /** A newline in no piece and not in the line in progress is in no line. */
  lemma {:induction false} FillNoNewline(tokens: seq<string>, line: string, width: nat)
    requires forall k :: 0 <= k < |tokens| ==> 1 <= |tokens[k]| <= width && Solid(tokens[k])
    requires |line| <= width && '\n' !in line
    ensures forall k :: 0 <= k < |FillFrom(tokens, line, width)| ==> '\n' !in FillFrom(tokens, line, width)[k]
    decreases |tokens|
  {
    if tokens != [] {
      var t := tokens[0];
      if line == [] {
        FillNoNewline(tokens[1..], t, width);
      } else if |line| + 1 + |t| <= width {
        FillNoNewline(tokens[1..], line + " " + t, width);
      } else {
        FillNoNewline(tokens[1..], t, width);
      }
    }
  }

  /** What `textwrap.wrap` promises here: no line wider than `width`, none
      empty, none with a newline, at least one line exactly when the text is
      not blank, and nothing but whitespace lost between the text and the
      lines joined with blanks. */
  lemma WrapProperties(text: string, width: nat)
    requires width >= 1
    ensures forall k :: 0 <= k < |Wrap(text, width)| ==>
      1 <= |Wrap(text, width)[k]| <= width && '\n' !in Wrap(text, width)[k]
    ensures Wrap(text, width) == [] <==> Squeeze(text) == []
    ensures Join(Wrap(text, width), ' ') == Join(Tokens(text, width), ' ')
    ensures Concat(Tokens(text, width)) == Squeeze(text)
  {
    var tokens := Tokens(text, width);
    FillNoNewline(tokens, "", width);
    FillJoin(tokens, "", width);
    TokensContent(text, width);
    if tokens != [] {
      ConcatCons(tokens[0], tokens[1..]);
      assert tokens == [tokens[0]] + tokens[1..];
    }
  }
}
