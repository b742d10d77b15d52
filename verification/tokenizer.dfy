/** `convert_arg_line_to_args` (src/rtb_argparse/config.py:10-15): a line is
    split on runs of whitespace and the non-empty pieces are yielded in order.
    The guard on `arg.strip()` there never fires, because `str.split()` with no
    argument never yields an empty or blank piece.
 */
module Tokenizer {
  import opened Text

  /** A token as the tokenizer yields it: non-empty and free of whitespace. */
  predicate IsToken(t: string) {
    t != [] && NoSpace(t)
  }

  /** The pending word, if any, as a list of at most one token. */
  function Flush(word: string): seq<string> {
    if word == [] then [] else [word]
  }

  /** Scans `s` left to right with `word` being the non-space run read so far. */
  function SplitFrom(s: string, word: string): (r: seq<string>)
    requires NoSpace(word)
    ensures forall t :: t in r ==> IsToken(t)
  {
    if s == [] then Flush(word)
    else if IsSpace(s[0]) then Flush(word) + SplitFrom(s[1..], [])
    else SplitFrom(s[1..], word + [s[0]])
  }

  /** `arg_line.split()`, filtered of blank pieces. */
  function Tokenize(line: string): (r: seq<string>)
    ensures forall t :: t in r ==> IsToken(t)
  {
    SplitFrom(line, [])
  }

  /** The pieces between whitespace characters, empty pieces included: what
      `split(c)` would give if every whitespace character were `c`. */
  function SplitAtSpace(s: string): (r: seq<string>)
    ensures |r| >= 1
    ensures forall p :: p in r ==> NoSpace(p)
  {
    if s == [] then [[]]
    else
      var rest := SplitAtSpace(s[1..]);
      if IsSpace(s[0]) then [[]] + rest
      else
        assert rest[0] in rest;
        [[s[0]] + rest[0]] + rest[1..]
  }

  /** The non-empty strings of a list, in order. */
  function NonEmpty(ps: seq<string>): seq<string> {
    if ps == [] then [] else Flush(ps[0]) + NonEmpty(ps[1..])
  }

  /** The concatenation of a list of strings. */
  function Concat(ss: seq<string>): string {
    if ss == [] then [] else ss[0] + Concat(ss[1..])
  }

  /** `s` with every whitespace character deleted. */
  function RemoveSpace(s: string): string {
    if s == [] then [] else (if IsSpace(s[0]) then [] else [s[0]]) + RemoveSpace(s[1..])
  }

  lemma {:induction false} ConcatAppend(a: seq<string>, b: seq<string>)
    ensures Concat(a + b) == Concat(a) + Concat(b)
    decreases |a|
  {
    if a != [] {
      assert (a + b)[1..] == a[1..] + b;
      ConcatAppend(a[1..], b);
    } else {
      assert a + b == b;
    }
  }

  lemma {:induction false} SplitFromSeparator(a: string, c: char, b: string, word: string)
    requires NoSpace(word) && IsSpace(c)
    ensures SplitFrom(a + [c] + b, word) == SplitFrom(a, word) + SplitFrom(b, [])
    decreases |a|
  {
    if a == [] {
      assert a + [c] + b == [c] + b;
      assert ([c] + b)[1..] == b;
    } else {
      assert (a + [c] + b)[0] == a[0];
      assert (a + [c] + b)[1..] == a[1..] + [c] + b;
      if IsSpace(a[0]) {
        SplitFromSeparator(a[1..], c, b, []);
      } else {
        SplitFromSeparator(a[1..], c, b, word + [a[0]]);
      }
    }
  }

  /** A whitespace character is a hard token boundary: tokenizing around it
      is tokenizing each side separately. */
  lemma TokenizeSeparator(a: string, c: char, b: string)
    requires IsSpace(c)
    ensures Tokenize(a + [c] + b) == Tokenize(a) + Tokenize(b)
  {
    SplitFromSeparator(a, c, b, []);
  }

  lemma {:induction false} SplitFromWord(w: string, word: string)
    requires NoSpace(w) && NoSpace(word)
    ensures SplitFrom(w, word) == Flush(word + w)
    decreases |w|
  {
    if w == [] {
      assert word + w == word;
    } else {
      assert !IsSpace(w[0]);
      SplitFromWord(w[1..], word + [w[0]]);
      assert word + [w[0]] + w[1..] == word + w;
    }
  }

  /** A whitespace-free line is one token, or none when it is empty. */
  lemma TokenizeWord(w: string)
    requires NoSpace(w)
    ensures Tokenize(w) == Flush(w)
  {
    SplitFromWord(w, []);
    assert [] + w == w;
  }

  /** Round trip: joining tokens with single spaces and tokenizing the result
      gives the tokens back. */
  lemma {:induction false} TokenizeJoin(ts: seq<string>)
    requires |ts| >= 1
    requires forall t :: t in ts ==> IsToken(t)
    ensures Tokenize(JoinOn(ts, ' ')) == ts
    decreases |ts|
  {
    assert ts[0] in ts;
    TokenizeWord(ts[0]);
    if |ts| > 1 {
      assert forall t :: t in ts[1..] ==> t in ts;
      TokenizeJoin(ts[1..]);
      TokenizeSeparator(ts[0], ' ', JoinOn(ts[1..], ' '));
      assert ts == [ts[0]] + ts[1..];
    }
  }

  lemma {:induction false} SplitFromKeepsText(s: string, word: string)
    requires NoSpace(word)
    ensures Concat(SplitFrom(s, word)) == word + RemoveSpace(s)
    decreases |s|
  {
    if s == [] {
      assert word + [] == word;
    } else if IsSpace(s[0]) {
      SplitFromKeepsText(s[1..], []);
      ConcatAppend(Flush(word), SplitFrom(s[1..], []));
      assert [] + RemoveSpace(s[1..]) == RemoveSpace(s[1..]);
    } else {
      SplitFromKeepsText(s[1..], word + [s[0]]);
    }
  }

  /** No character other than whitespace is lost or reordered: the tokens,
      concatenated, are the line with its whitespace deleted. */
  lemma TokenizeKeepsText(line: string)
    ensures Concat(Tokenize(line)) == RemoveSpace(line)
  {
    SplitFromKeepsText(line, []);
    assert [] + RemoveSpace(line) == RemoveSpace(line);
  }

  lemma {:induction false} SplitFromIsSplitFiltered(s: string, word: string)
    requires NoSpace(word)
    ensures SplitFrom(s, word) ==
      NonEmpty([word + SplitAtSpace(s)[0]] + SplitAtSpace(s)[1..])
    decreases |s|
  {
    var r := SplitAtSpace(s);
    if s == [] {
      assert word + [] == word;
    } else {
      var rest := SplitAtSpace(s[1..]);
      if IsSpace(s[0]) {
        SplitFromIsSplitFiltered(s[1..], []);
        assert [] + rest[0] == rest[0];
        assert rest == [rest[0]] + rest[1..];
        assert ([word + r[0]] + r[1..])[1..] == rest;
        assert word + r[0] == word;
      } else {
        SplitFromIsSplitFiltered(s[1..], word + [s[0]]);
        assert word + r[0] == word + [s[0]] + rest[0];
        assert r[1..] == rest[1..];
      }
    }
  }

  /** Reference definition: the tokens are exactly the non-empty pieces left
      when the line is cut at every whitespace character, in order, which is
      what `str.split()` returns. */
  lemma TokenizeIsSplitFiltered(line: string)
    ensures Tokenize(line) == NonEmpty(SplitAtSpace(line))
  {
    SplitFromIsSplitFiltered(line, []);
    var r := SplitAtSpace(line);
    assert [] + r[0] == r[0];
    assert r == [r[0]] + r[1..];
  }

  /** The tokens of every line in order, as the loops of `default_file_parser`
      (src/rtb_argparse/config.py:24-26) collect them. */
  function TokenizeLines(lines: seq<string>): (r: seq<string>)
    ensures forall t :: t in r ==> IsToken(t)
  {
    if lines == [] then [] else Tokenize(lines[0]) + TokenizeLines(lines[1..])
  }

  lemma {:induction false} TokenizeLinesAppend(a: seq<string>, b: seq<string>)
    ensures TokenizeLines(a + b) == TokenizeLines(a) + TokenizeLines(b)
    decreases |a|
  {
    if a != [] {
      assert (a + b)[1..] == a[1..] + b;
      TokenizeLinesAppend(a[1..], b);
    } else {
      assert a + b == b;
    }
  }

  /** Line breaks are whitespace, so tokenizing line by line is tokenizing the
      whole text with its lines joined by line breaks. */
  lemma {:induction false} TokenizeLinesJoined(lines: seq<string>)
    requires |lines| >= 1
    ensures TokenizeLines(lines) == Tokenize(JoinOn(lines, '\n'))
    decreases |lines|
  {
    if |lines| > 1 {
      TokenizeLinesJoined(lines[1..]);
      TokenizeSeparator(lines[0], '\n', JoinOn(lines[1..], '\n'));
    }
  }
}
