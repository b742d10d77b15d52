/** The plain-text readers of src/rtb_argparse/config.py: `default_file_parser`
    (lines 18-27) and `ParserConfig` with its wrapper `config_parser`
    (lines 155-188).

    A file is given as the list of lines `splitlines` would produce; opening
    and reading it is replaced by a lookup in `files`.

    In `ParserConfig` a line whose first character is the marker is a header
    `<marker><name> <text>`: it opens the section `name` (stripped) and its
    `<text>` belongs to that section. Lines before the first header are always
    kept; later lines are kept exactly when the current section was requested.
 */
module PlainConfig {
  import opened Results
  import opened Errors
  import opened Text
  import opened Tokenizer
  import opened Reference

  /** `default_file_parser`: every whitespace-separated token of the file
      named by the token minus its first character. */
  function DefaultFileParser(files: map<string, seq<string>>, arg: string): (r: Result<seq<string>, Error>)
    ensures r.Failure? <==> Drop1(arg) !in files
    ensures r.Failure? ==> r.error == FileNotReadable(Drop1(arg))
    ensures r.Success? ==> forall t :: t in r.value ==> IsToken(t)
    ensures r.Success? && files[Drop1(arg)] != [] ==>
      r.value == Tokenize(JoinOn(files[Drop1(arg)], '\n'))
    ensures r.Success? && files[Drop1(arg)] == [] ==> r.value == []
  {
    var name := Drop1(arg);
    if name !in files then Failure(FileNotReadable(name))
    else
      var lines := files[name];
      assert lines != [] ==> TokenizeLines(lines) == Tokenize(JoinOn(lines, '\n')) by {
        if lines != [] {
          TokenizeLinesJoined(lines);
        }
      }
      Success(TokenizeLines(lines))
  }

  /** The scanner's state: the current section (`None` before the first
      header), the `config_valid` flag and the tokens gathered so far. */
  datatype ScanState = ScanState(section: Option<string>, valid: bool, tokens: seq<string>)

  /** Content under `section` is kept: it precedes every header, or its
      section was requested. */
  predicate Included(section: Option<string>, config: seq<string>) {
    section.None? || section.value in config
  }

  predicate IsHeader(line: string, prefix: char) {
    line != [] && line[0] == prefix
  }

  predicate NoHeader(lines: seq<string>, prefix: char) {
    forall i :: 0 <= i < |lines| ==> !IsHeader(lines[i], prefix)
  }

  /** A header that `split(" ", 1)` can cut in two. */
  predicate WellFormedHeader(line: string, prefix: char) {
    IsHeader(line, prefix) && ' ' in line[1..]
  }

  /** The stripped section name of a well-formed header. */
  function HeaderName(line: string, prefix: char): string
    requires WellFormedHeader(line, prefix)
  {
    Strip(line[1..][..FirstIndex(line[1..], ' ')])
  }

  /** Appends the tokens of `text` when the current section is included. */
  function Emit(st: ScanState, text: string, config: seq<string>): (r: ScanState)
    ensures r.section == st.section && r.valid == st.valid
    ensures Included(st.section, config) ==> r.tokens == st.tokens + Tokenize(text)
    ensures !Included(st.section, config) ==> r.tokens == st.tokens
  {
    st.(tokens := st.tokens + (if Included(st.section, config) then Tokenize(text) else []))
  }

  /** One iteration of the loop at config.py:169-177. An empty line is
      dropped (the `filter(None, …)`); a header without a space fails. */
  function ScanLine(st: ScanState, line: string, prefix: char, config: seq<string>): (r: Result<ScanState, Error>)
    ensures r.Failure? <==> IsHeader(line, prefix) && !WellFormedHeader(line, prefix)
    ensures r.Failure? ==> r.error == HeaderWithoutSpace(line)
    ensures r.Success? ==> st.tokens <= r.value.tokens
    ensures r.Success? ==>
      (r.value.valid <==> st.valid || (WellFormedHeader(line, prefix) && HeaderName(line, prefix) in config))
    ensures r.Success? && !IsHeader(line, prefix) ==> r.value.section == st.section
    ensures r.Success? && IsHeader(line, prefix) ==> r.value.section == Some(HeaderName(line, prefix))
  {
    if line == [] then Success(st)
    else if line[0] != prefix then Success(Emit(st, line, config))
    else
      var body := line[1..];
      if ' ' !in body then Failure(HeaderWithoutSpace(line))
      else
        var i := FirstIndex(body, ' ');
        var name := Strip(body[..i]);
        Success(Emit(ScanState(Some(name), st.valid || name in config, st.tokens), body[i + 1..], config))
  }

  /** Some header line cannot be cut in two by `split(" ", 1)`. */
  predicate SomeBadHeader(lines: seq<string>, prefix: char) {
    exists i :: 0 <= i < |lines| && IsHeader(lines[i], prefix) && !WellFormedHeader(lines[i], prefix)
  }

  /** Some header line opens a requested section. */
  predicate SomeRequestedHeader(lines: seq<string>, prefix: char, config: seq<string>) {
    exists i :: 0 <= i < |lines| && WellFormedHeader(lines[i], prefix) && HeaderName(lines[i], prefix) in config
  }

  /** The whole loop of config.py:169-177 from state `st`. It fails exactly
      when some header has no space; on success the flag is set exactly when
      it was set before or some header names a requested section, and the
      tokens only grow. */
  function ScanLines(st: ScanState, lines: seq<string>, prefix: char, config: seq<string>): (r: Result<ScanState, Error>)
    ensures r.Failure? <==> SomeBadHeader(lines, prefix)
    ensures r.Failure? ==> r.error.HeaderWithoutSpace?
    ensures r.Success? ==> st.tokens <= r.value.tokens
    ensures r.Success? ==> (r.value.valid <==> (st.valid || SomeRequestedHeader(lines, prefix, config)))
    decreases |lines|
  {
    if lines == [] then Success(st)
    else
      var next :- ScanLine(st, lines[0], prefix, config);
      var r := ScanLines(next, lines[1..], prefix, config);
      assert forall i :: 1 <= i < |lines| ==> lines[i] == lines[1..][i - 1];
      r
  }

  /** The state before the first line: outside any section, with the
      reference's starting validity and no tokens. */
  function Start(ref: Reference): ScanState {
    ScanState(None, ref.valid, [])
  }

  /** `config_parser`: `ParserConfig(arg).get_args()`. A readable file fails
      with `HeaderWithoutSpace` exactly when some header has no space, and
      with `ConfigNotFound` exactly when the headers are well formed but no
      requested section occurs and the reference named sections. Every token
      it returns is non-empty and free of whitespace. */
  function ConfigParser(files: map<string, seq<string>>, arg: string, prefixOverride: Option<string>)
    : (r: Result<seq<string>, Error>)
    ensures ParseReference(arg, prefixOverride).Failure? ==> r == Failure(ParseReference(arg, prefixOverride).error)
    ensures ParseReference(arg, prefixOverride).Success? &&
            ParseReference(arg, prefixOverride).value.filename !in files ==>
      r == Failure(FileNotReadable(ParseReference(arg, prefixOverride).value.filename))
    ensures var p := ParseReference(arg, prefixOverride);
      p.Success? && p.value.filename in files ==>
        (r.Failure? && r.error.HeaderWithoutSpace? <==> SomeBadHeader(files[p.value.filename], p.value.prefix))
    ensures var p := ParseReference(arg, prefixOverride);
      p.Success? && p.value.filename in files ==>
        (r.Failure? && r.error.ConfigNotFound? <==>
           !SomeBadHeader(files[p.value.filename], p.value.prefix) && !p.value.valid &&
           !SomeRequestedHeader(files[p.value.filename], p.value.prefix, p.value.config))
    ensures r.Success? ==> forall t :: t in r.value ==> IsToken(t)
  {
    var ref :- ParseReference(arg, prefixOverride);
    if ref.filename !in files then Failure(FileNotReadable(ref.filename))
    else
      var st :- ScanLines(Start(ref), files[ref.filename], ref.prefix, ref.config);
      TokensOfScan(Start(ref), files[ref.filename], ref.prefix, ref.config);
      GetArgs(ref, st.valid, st.tokens)
  }

  /** Every token the scanner adds comes from the tokenizer. */
  lemma {:induction false} TokensOfScan(st: ScanState, lines: seq<string>, prefix: char, config: seq<string>)
    requires forall t :: t in st.tokens ==> IsToken(t)
    ensures ScanLines(st, lines, prefix, config).Success? ==>
      forall t :: t in ScanLines(st, lines, prefix, config).value.tokens ==> IsToken(t)
    decreases |lines|
  {
    if lines != [] {
      var next := ScanLine(st, lines[0], prefix, config);
      if next.Success? {
        TokensOfScan(next.value, lines[1..], prefix, config);
      }
    }
  }

  /** Continues a scan that may already have failed. */
  function ScanMore(r: Result<ScanState, Error>, lines: seq<string>, prefix: char, config: seq<string>)
    : Result<ScanState, Error>
  {
    if r.Failure? then r else ScanLines(r.value, lines, prefix, config)
  }

  /** Scanning `a + b` is scanning `a` and then `b` from where `a` stopped. */
  lemma {:induction false} ScanLinesAppend(st: ScanState, a: seq<string>, b: seq<string>, prefix: char, config: seq<string>)
    ensures ScanLines(st, a + b, prefix, config) == ScanMore(ScanLines(st, a, prefix, config), b, prefix, config)
    decreases |a|
  {
    if a == [] {
      assert a + b == b;
    } else {
      assert (a + b)[0] == a[0];
      assert (a + b)[1..] == a[1..] + b;
      var next := ScanLine(st, a[0], prefix, config);
      if next.Success? {
        ScanLinesAppend(next.value, a[1..], b, prefix, config);
      }
    }
  }

  /** Empty lines contribute nothing: removing one anywhere leaves the
      outcome unchanged. */
  lemma EmptyLineIgnored(st: ScanState, a: seq<string>, b: seq<string>, prefix: char, config: seq<string>)
    ensures ScanLines(st, a + [[]] + b, prefix, config) == ScanLines(st, a + b, prefix, config)
  {
    ScanLinesAppend(st, a, [[]] + b, prefix, config);
    ScanLinesAppend(st, a, b, prefix, config);
    assert (a + [[]] + b) == a + ([[]] + b);
    assert ([[]] + b)[1..] == b;
  }

  /** Lines without a header stay in the current section: all of their
      tokens are added when it is included, none otherwise, and nothing else
      in the state changes. */
  lemma {:induction false} ScanBody(st: ScanState, lines: seq<string>, prefix: char, config: seq<string>)
    requires NoHeader(lines, prefix)
    ensures ScanLines(st, lines, prefix, config) ==
      Success(st.(tokens := st.tokens + (if Included(st.section, config) then TokenizeLines(lines) else [])))
    decreases |lines|
  {
    if lines == [] {
      assert st.tokens + [] == st.tokens;
    } else {
      assert !IsHeader(lines[0], prefix);
      assert NoHeader(lines[1..], prefix) by {
        forall i | 0 <= i < |lines[1..]| ensures !IsHeader(lines[1..][i], prefix) {
          assert lines[1..][i] == lines[i + 1];
        }
      }
      var next := Emit(st, lines[0], config);
      assert ScanLine(st, lines[0], prefix, config) == Success(next) by {
        if lines[0] == [] {
          assert Tokenize(lines[0]) == [];
          assert next == st;
        }
      }
      assert ScanLines(st, lines, prefix, config) == ScanLines(next, lines[1..], prefix, config);
      ScanBody(next, lines[1..], prefix, config);
      assert TokenizeLines(lines) == Tokenize(lines[0]) + TokenizeLines(lines[1..]);
      if Included(st.section, config) {
        assert next.tokens + TokenizeLines(lines[1..]) == st.tokens + TokenizeLines(lines);
      }
    }
  }

  /** A header `<marker><name> <rest>`, with no space in `name`, enters the
      section `strip(name)`; its flag is raised and `rest` is tokenized
      exactly when that name was requested. */
  lemma HeaderLine(st: ScanState, prefix: char, name: string, rest: string, config: seq<string>)
    requires ' ' !in name
    ensures ScanLine(st, [prefix] + name + [' '] + rest, prefix, config) ==
      Success(ScanState(Some(Strip(name)), st.valid || Strip(name) in config,
                        st.tokens + (if Strip(name) in config then Tokenize(rest) else [])))
  {
    var line := [prefix] + name + [' '] + rest;
    var body := line[1..];
    assert body == name + [' '] + rest;
    assert body[|name|] == ' ';
    FirstIndexAfterWord(name, ' ', rest);
    var i := FirstIndex(body, ' ');
    assert body[..i] == name;
    assert body[i + 1..] == rest;
  }

  /** One section of a plain-text file: the header `<marker><name> <rest>`
      followed by lines that are not headers. */
  datatype Section = Section(name: string, rest: string, body: seq<string>)

  predicate WellFormedSection(s: Section, prefix: char) {
    ' ' !in s.name && NoHeader(s.body, prefix)
  }

  /** The lines of a file made of `preamble` and then `sections`. */
  function Render(preamble: seq<string>, sections: seq<Section>, prefix: char): seq<string> {
    if sections == [] then preamble
    else
      var s := sections[|sections| - 1];
      Render(preamble, sections[..|sections| - 1], prefix) + [HeaderOf(s, prefix)] + s.body
  }

  /** What the file should yield, section by section: the preamble's tokens,
      then the header text and body tokens of each requested section. */
  function Selected(preamble: seq<string>, sections: seq<Section>, config: seq<string>): seq<string> {
    if sections == [] then TokenizeLines(preamble)
    else
      var s := sections[|sections| - 1];
      Selected(preamble, sections[..|sections| - 1], config) +
        (if Strip(s.name) in config then Tokenize(s.rest) + TokenizeLines(s.body) else [])
  }

  /** Some section of the file carries a requested name. */
  predicate AnyRequested(sections: seq<Section>, config: seq<string>) {
    sections != [] &&
    (Strip(sections[|sections| - 1].name) in config || AnyRequested(sections[..|sections| - 1], config))
  }

  /** The header line of a section. */
  function HeaderOf(s: Section, prefix: char): string {
    [prefix] + s.name + [' '] + s.rest
  }

  /** The state after a section's header line alone. */
  function Entered(st: ScanState, s: Section, config: seq<string>): ScanState {
    var name := Strip(s.name);
    ScanState(Some(name), st.valid || name in config,
              st.tokens + (if name in config then Tokenize(s.rest) else []))
  }

  lemma ScanHeaderOnly(st: ScanState, s: Section, prefix: char, config: seq<string>)
    requires ' ' !in s.name
    ensures ScanLines(st, [HeaderOf(s, prefix)], prefix, config) == Success(Entered(st, s, config))
  {
    HeaderLine(st, prefix, s.name, s.rest, config);
    assert [HeaderOf(s, prefix)][1..] == [];
  }

  /** After its header, a section's body is scanned inside that section. */
  lemma ScanSectionBody(st: ScanState, s: Section, prefix: char, config: seq<string>)
    requires WellFormedSection(s, prefix)
    ensures ScanLines(st, [HeaderOf(s, prefix)] + s.body, prefix, config) ==
      Success(Entered(st, s, config).(tokens := Entered(st, s, config).tokens +
                (if Strip(s.name) in config then TokenizeLines(s.body) else [])))
  {
    ScanHeaderOnly(st, s, prefix, config);
    ScanLinesAppend(st, [HeaderOf(s, prefix)], s.body, prefix, config);
    ScanBody(Entered(st, s, config), s.body, prefix, config);
  }

  /** Scanning one well-formed section from any state enters it, and adds its
      header text and body tokens exactly when it was requested. */
  lemma SectionTokens(st: ScanState, s: Section, config: seq<string>)
    ensures Entered(st, s, config).(tokens := Entered(st, s, config).tokens +
                (if Strip(s.name) in config then TokenizeLines(s.body) else [])) ==
      ScanState(Some(Strip(s.name)), st.valid || Strip(s.name) in config,
                st.tokens + (if Strip(s.name) in config then Tokenize(s.rest) + TokenizeLines(s.body) else []))
  {
    var name := Strip(s.name);
    if name in config {
      assert st.tokens + Tokenize(s.rest) + TokenizeLines(s.body) ==
             st.tokens + (Tokenize(s.rest) + TokenizeLines(s.body));
    } else {
      assert st.tokens + [] + [] == st.tokens + [];
    }
  }

  /** The scanner on a sectioned file gives exactly `Selected`, and raises
      the flag exactly when some section was requested. */
  lemma {:induction false} ScanSections(preamble: seq<string>, sections: seq<Section>, prefix: char,
                                        config: seq<string>, valid: bool)
    requires NoHeader(preamble, prefix)
    requires forall i :: 0 <= i < |sections| ==> WellFormedSection(sections[i], prefix)
    ensures ScanLines(ScanState(None, valid, []), Render(preamble, sections, prefix), prefix, config) ==
      Success(ScanState(if sections == [] then None else Some(Strip(sections[|sections| - 1].name)),
                        valid || AnyRequested(sections, config),
                        Selected(preamble, sections, config)))
    decreases |sections|
  {
    var start := ScanState(None, valid, []);
    if sections == [] {
      ScanBody(start, preamble, prefix, config);
      assert [] + TokenizeLines(preamble) == TokenizeLines(preamble);
    } else {
      var init := sections[..|sections| - 1];
      var s := sections[|sections| - 1];
      assert forall i :: 0 <= i < |init| ==> init[i] == sections[i];
      ScanSections(preamble, init, prefix, config, valid);
      var mid := ScanState(if init == [] then None else Some(Strip(init[|init| - 1].name)),
                           valid || AnyRequested(init, config), Selected(preamble, init, config));
      var lines := Render(preamble, init, prefix);
      assert Render(preamble, sections, prefix) == lines + ([HeaderOf(s, prefix)] + s.body);
      ScanLinesAppend(start, lines, [HeaderOf(s, prefix)] + s.body, prefix, config);
      ScanSectionBody(mid, s, prefix, config);
      SectionTokens(mid, s, config);
      if Strip(s.name) !in config {
        assert Selected(preamble, sections, config) == Selected(preamble, init, config) + [];
      }
    }
  }

  /** `config_parser` on a sectioned file: it returns the preamble's tokens
      and those of every requested section, and it fails with
      `ConfigNotFound` exactly when sections were requested and none of them
      occurs. Finding one of several requested sections is enough. */
  lemma ConfigParserSections(files: map<string, seq<string>>, arg: string, prefixOverride: Option<string>,
                             ref: Reference, preamble: seq<string>, sections: seq<Section>)
    requires ParseReference(arg, prefixOverride) == Success(ref)
    requires ref.filename in files
    requires NoHeader(preamble, ref.prefix)
    requires forall i :: 0 <= i < |sections| ==> WellFormedSection(sections[i], ref.prefix)
    requires files[ref.filename] == Render(preamble, sections, ref.prefix)
    ensures ConfigParser(files, arg, prefixOverride) ==
      if ref.valid || AnyRequested(sections, ref.config)
      then Success(Selected(preamble, sections, ref.config))
      else Failure(ConfigNotFound(ref.config, ref.filename))
  {
    ScanSections(preamble, sections, ref.prefix, ref.config, ref.valid);
  }

  /** Content before the first header is always returned, whatever the
      sections requested: on success the result starts with its tokens. */
  lemma PreambleAlwaysIncluded(files: map<string, seq<string>>, arg: string, prefixOverride: Option<string>,
                               ref: Reference, preamble: seq<string>, rest: seq<string>)
    requires ParseReference(arg, prefixOverride) == Success(ref)
    requires ref.filename in files
    requires files[ref.filename] == preamble + rest
    requires NoHeader(preamble, ref.prefix)
    ensures ConfigParser(files, arg, prefixOverride).Success? ==>
      TokenizeLines(preamble) <= ConfigParser(files, arg, prefixOverride).value
  {
    ScanLinesAppend(Start(ref), preamble, rest, ref.prefix, ref.config);
    ScanBody(Start(ref), preamble, ref.prefix, ref.config);
    assert [] + TokenizeLines(preamble) == TokenizeLines(preamble);
  }

  /** Without any section named in the token, the configuration is
      `["default"]`: the read always succeeds, and among the sections only
      those named `default` are returned. */
  lemma NoSelectionReadsDefault(files: map<string, seq<string>>, arg: string, prefixOverride: Option<string>,
                                ref: Reference, preamble: seq<string>, sections: seq<Section>)
    requires ParseReference(arg, prefixOverride) == Success(ref)
    requires ref.prefix !in Drop1(arg)
    requires Drop1(arg) in files
    requires NoHeader(preamble, ref.prefix)
    requires forall i :: 0 <= i < |sections| ==> WellFormedSection(sections[i], ref.prefix)
    requires files[Drop1(arg)] == Render(preamble, sections, ref.prefix)
    ensures ConfigParser(files, arg, prefixOverride) == Success(Selected(preamble, sections, ["default"]))
  {
    ConfigParserSections(files, arg, prefixOverride, ref, preamble, sections);
  }

  /** On a file without headers and a token without sections, `config_parser`
      behaves as `default_file_parser`. */
  lemma ConfigParserWithoutSections(files: map<string, seq<string>>, arg: string)
    requires arg != []
    requires arg[0] !in Drop1(arg)
    requires Drop1(arg) in files ==> NoHeader(files[Drop1(arg)], arg[0])
    ensures ConfigParser(files, arg, None) == DefaultFileParser(files, arg)
  {
    var ref := ParseReference(arg, None).value;
    if Drop1(arg) in files {
      ScanBody(Start(ref), files[Drop1(arg)], ref.prefix, ref.config);
      assert [] + TokenizeLines(files[Drop1(arg)]) == TokenizeLines(files[Drop1(arg)]);
    }
  }
}
