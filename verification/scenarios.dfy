/** Worked examples of the readers and the expander on small files, derived
    from the general lemmas. The marker throughout is `@`.
 */
module Scenarios {
  import opened Results
  import opened Errors
  import opened Text
  import opened Tokenizer
  import opened Reference
  import opened PlainConfig
  import opened JsonConfig
  import opened Expander

  /** A line of two tokens separated by one space. */
  lemma TwoTokens(line: string, a: string, b: string)
    requires IsToken(a) && IsToken(b) && line == a + " " + b
    ensures Tokenize(line) == [a, b]
  {
    TokenizeJoin([a, b]);
    assert JoinOn([a, b], ' ') == a + " " + b;
  }

  /** A file without sections read without a selection gives all its tokens. */
  lemma PlainWithoutSections()
    ensures ConfigParser(map["file" := ["--a 1", "--b 2"]], "@file", None) == Success(["--a", "1", "--b", "2"])
  {
    var files := map["file" := ["--a 1", "--b 2"]];
    var lines := ["--a 1", "--b 2"];
    TwoTokens("--a 1", "--a", "1");
    TwoTokens("--b 2", "--b", "2");
    assert lines[1..] == ["--b 2"] && lines[1..][1..] == [];
    assert TokenizeLines(lines) == ["--a", "1", "--b", "2"];
    var ref := Reference('@', "file", DefaultConfig, true);
    assert ParseReference("@file", None) == Success(ref);
    NoSelectionReadsDefault(files, "@file", None, ref, lines, []);
  }

  /** The file of the sectioned examples: one preamble line and two sections. */
  function SectionedFile(): seq<string> {
    ["--x 1", "@s1 --y 2", "@s2 --z 3"]
  }

  function SectionsOfFile(): seq<Section> {
    [Section("s1", "--y 2", []), Section("s2", "--z 3", [])]
  }

  lemma SectionedFileShape()
    ensures SectionedFile() == Render(["--x 1"], SectionsOfFile(), '@')
  {
    var s := SectionsOfFile();
    assert s[..1] == [s[0]] && s[..1][..0] == [];
    assert HeaderOf(s[0], '@') == "@s1 --y 2";
    assert HeaderOf(s[1], '@') == "@s2 --z 3";
    assert Render(["--x 1"], s[..1], '@') == ["--x 1", "@s1 --y 2"];
  }

  lemma SectionedFileWellFormed()
    ensures NoHeader(["--x 1"], '@')
    ensures forall i :: 0 <= i < |SectionsOfFile()| ==> WellFormedSection(SectionsOfFile()[i], '@')
  {
  }

  /** Selection and validity over a file of two sections, one section at a
      time. */
  lemma TwoSections(preamble: seq<string>, a: Section, b: Section, config: seq<string>)
    ensures Selected(preamble, [a, b], config) ==
      TokenizeLines(preamble) +
      (if Strip(a.name) in config then Tokenize(a.rest) + TokenizeLines(a.body) else []) +
      (if Strip(b.name) in config then Tokenize(b.rest) + TokenizeLines(b.body) else [])
    ensures AnyRequested([a, b], config) <==> Strip(a.name) in config || Strip(b.name) in config
  {
    var s := [a, b];
    assert s[..1] == [a] && s[..1][..0] == [];
    assert Selected(preamble, [a], config) ==
      TokenizeLines(preamble) + (if Strip(a.name) in config then Tokenize(a.rest) + TokenizeLines(a.body) else []);
    assert AnyRequested([a], config) <==> Strip(a.name) in config;
  }

  /** A reference `@file@<name>` selects the one section `name`. */
  lemma FileReference(name: string)
    requires '@' !in name
    ensures ParseReference("@file@" + name, None) == Success(Reference('@', "file", [name], false))
  {
    ReferenceRoundTrip('@', None, '@', "file", [name]);
    assert "@file@" + name == ['@'] + JoinOn(["file", name], '@');
  }

  /** A reference `@file@<first>@<second>` selects two sections. */
  lemma FileReferenceTwo(first: string, second: string)
    requires '@' !in first && '@' !in second
    ensures ParseReference("@file@" + first + "@" + second, None) ==
      Success(Reference('@', "file", [first, second], false))
  {
    ReferenceRoundTrip('@', None, '@', "file", [first, second]);
    var pieces := ["file", first, second];
    assert pieces[1..][1..] == [second];
    assert JoinOn(pieces[1..], '@') == first + "@" + second;
    assert "@file@" + first + "@" + second == ['@'] + JoinOn(pieces, '@');
  }

  /** The tokens of each part of the sectioned file. */
  lemma SectionedFileParts()
    ensures SectionsOfFile() == [Section("s1", "--y 2", []), Section("s2", "--z 3", [])]
    ensures Strip("s1") == "s1" && Strip("s2") == "s2"
    ensures TokenizeLines(["--x 1"]) == ["--x", "1"]
    ensures Tokenize("--y 2") + TokenizeLines([]) == ["--y", "2"]
    ensures Tokenize("--z 3") + TokenizeLines([]) == ["--z", "3"]
  {
    assert Trimmed("s1") && Trimmed("s2");
    TwoTokens("--x 1", "--x", "1");
    TwoTokens("--y 2", "--y", "2");
    TwoTokens("--z 3", "--z", "3");
    assert ["--x 1"][1..] == [];
  }

  /** What the sectioned file yields for any list of requested sections. */
  lemma SectionedFileSelection(config: seq<string>)
    ensures Selected(["--x 1"], SectionsOfFile(), config) ==
      ["--x", "1"] + (if "s1" in config then ["--y", "2"] else []) + (if "s2" in config then ["--z", "3"] else [])
  {
    SectionedFileParts();
    TwoSections(["--x 1"], Section("s1", "--y 2", []), Section("s2", "--z 3", []), config);
  }

  /** The sectioned file counts as found when `s1` or `s2` is requested. */
  lemma SectionedFileRequested(config: seq<string>)
    ensures AnyRequested(SectionsOfFile(), config) <==> "s1" in config || "s2" in config
  {
    SectionedFileParts();
    TwoSections(["--x 1"], Section("s1", "--y 2", []), Section("s2", "--z 3", []), config);
  }

  /** Reading the sectioned file under any reference `@file@...`. */
  lemma SelectFromSectionedFile(arg: string, config: seq<string>)
    requires ParseReference(arg, None) == Success(Reference('@', "file", config, false))
    ensures ConfigParser(map["file" := SectionedFile()], arg, None) ==
      if "s1" in config || "s2" in config
      then Success(["--x", "1"] + (if "s1" in config then ["--y", "2"] else []) +
                   (if "s2" in config then ["--z", "3"] else []))
      else Failure(ConfigNotFound(config, "file"))
  {
    SectionedFileShape();
    SectionedFileWellFormed();
    SectionedFileSelection(config);
    SectionedFileRequested(config);
    ConfigParserSections(map["file" := SectionedFile()], arg, None, Reference('@', "file", config, false),
                         ["--x 1"], SectionsOfFile());
  }

  /** Requesting `s2` keeps the preamble and `s2` and drops `s1`. */
  lemma PlainSelectOne()
    ensures ConfigParser(map["file" := SectionedFile()], "@file@s2", None) == Success(["--x", "1", "--z", "3"])
  {
    FileReference("s2");
    assert "@file@s2" == "@file@" + "s2";
    assert "s1" !in ["s2"] by { assert "s1"[1] != "s2"[1]; }
    assert ["--x", "1"] + [] + ["--z", "3"] == ["--x", "1", "--z", "3"];
    SelectFromSectionedFile("@file@s2", ["s2"]);
  }

  /** Requesting `s3`, which the file lacks, fails naming it. */
  lemma PlainSelectMissing()
    ensures ConfigParser(map["file" := SectionedFile()], "@file@s3", None) == Failure(ConfigNotFound(["s3"], "file"))
  {
    FileReference("s3");
    assert "@file@s3" == "@file@" + "s3";
    SelectFromSectionedFile("@file@s3", ["s3"]);
  }

  /** Requesting `s1` and `s3` succeeds: one present section is enough. */
  lemma PlainSelectAnyOf()
    ensures ConfigParser(map["file" := SectionedFile()], "@file@s1@s3", None) == Success(["--x", "1", "--y", "2"])
  {
    FileReferenceTwo("s1", "s3");
    assert "@file@s1@s3" == "@file@" + "s1" + "@" + "s3";
    assert "s2" !in ["s1", "s3"] by { assert "s2"[1] != "s1"[1] && "s2"[1] != "s3"[1]; }
    assert ["--x", "1"] + ["--y", "2"] + [] == ["--x", "1", "--y", "2"];
    SelectFromSectionedFile("@file@s1@s3", ["s1", "s3"]);
  }

  /** A bare header, with nothing after the section name, is an error. */
  lemma PlainBareHeader()
    ensures ConfigParser(map["file" := ["--x 1", "@s1"]], "@file@s1", None) == Failure(HeaderWithoutSpace("@s1"))
  {
    ReferenceRoundTrip('@', None, '@', "file", ["s1"]);
    assert "@file@s1" == ['@'] + JoinOn(["file", "s1"], '@');
    var lines := ["--x 1", "@s1"];
    assert WellFormedHeader(lines[0], '@') == false;
    var ref := Reference('@', "file", ["s1"], false);
    var first := ScanLine(Start(ref), lines[0], '@', ["s1"]);
    assert first.Success?;
    assert lines[1..] == ["@s1"];
    assert ScanLine(first.value, "@s1", '@', ["s1"]) == Failure(HeaderWithoutSpace("@s1"));
  }

  /** A JSON document `{x: v, "@sec": {y: w}}`: a plain key and a section
      holding one more plain key. */
  function SectionedDocument(x: string, v: string, sec: string, y: string, w: string): Json {
    Object([Member(x, Scalar(v)), Member(['@'] + sec, Object([Member(y, Scalar(w))]))])
  }

  predicate PlainKeyOf(k: string) {
    k != [] && k[0] != '@'
  }

  /** An object of two members walks as its members in order. */
  lemma TwoMembers(m1: Member, m2: Member, prefix: char, config: seq<string>)
    ensures Walk(Object([m1, m2]), prefix, config) ==
      AndThen(WalkMember(m1, prefix, config), WalkMember(m2, prefix, config))
  {
    var ms := [m1, m2];
    assert ms[1..] == [m2] && ms[1..][1..] == [];
    var r2 := WalkMember(m2, prefix, config);
    assert WalkMembers([], prefix, config) == Success(Nothing);
    if r2.Success? {
      assert Then(r2.value, Nothing) == r2.value by {
        assert r2.value.tokens + [] == r2.value.tokens;
      }
    }
    assert WalkMembers([m2], prefix, config) == r2;
  }

  /** A plain key with a scalar value yields the key and the value. */
  lemma PlainScalarMember(k: string, v: string, config: seq<string>)
    requires PlainKeyOf(k)
    ensures WalkMember(Member(k, Scalar(v)), '@', config) == Success(Walked([k, v], false))
  {
    assert [k] + [v] == [k, v];
  }

  /** The section's value, walked on its own. */
  lemma SectionBody(y: string, w: string, config: seq<string>)
    requires PlainKeyOf(y)
    ensures Walk(Object([Member(y, Scalar(w))]), '@', config) == Success(Walked([y, w], false))
  {
    PlainScalarMember(y, w, config);
    var ms := [Member(y, Scalar(w))];
    assert ms[1..] == [];
    assert WalkMembers([], '@', config) == Success(Nothing);
    assert Then(Walked([y, w], false), Nothing) == Walked([y, w], false) by {
      assert [y, w] + [] == [y, w];
    }
  }

  /** The section member alone: its body when requested, nothing otherwise. */
  lemma SectionMemberWalk(sec: string, y: string, w: string, config: seq<string>)
    requires PlainKeyOf(y) && Trimmed(sec)
    ensures WalkMember(Member(['@'] + sec, Object([Member(y, Scalar(w))])), '@', config) ==
      Success(if sec in config then Walked([y, w], true) else Nothing)
  {
    assert (['@'] + sec)[1..] == sec;
    SectionBody(y, w, config);
  }

  /** The section is read exactly when its name is requested, and then marks
      the walk as found. */
  lemma SectionedDocumentWalk(x: string, v: string, sec: string, y: string, w: string, config: seq<string>)
    requires PlainKeyOf(x) && PlainKeyOf(y) && Trimmed(sec)
    ensures Walk(SectionedDocument(x, v, sec, y, w), '@', config) ==
      Success(Walked([x, v] + (if sec in config then [y, w] else []), sec in config))
  {
    var m1 := Member(x, Scalar(v));
    var m2 := Member(['@'] + sec, Object([Member(y, Scalar(w))]));
    PlainScalarMember(x, v, config);
    SectionMemberWalk(sec, y, w, config);
    WalkTwoMembers(m1, m2, Walked([x, v], false), if sec in config then Walked([y, w], true) else Nothing, '@', config);
    assert [x, v] + [] == [x, v];
  }

  /** Two members with known walks: the object yields the first walk and
      then the second. */
  lemma WalkTwoMembers(m1: Member, m2: Member, w1: Walked, w2: Walked, prefix: char, config: seq<string>)
    requires WalkMember(m1, prefix, config) == Success(w1)
    requires WalkMember(m2, prefix, config) == Success(w2)
    ensures Walk(Object([m1, m2]), prefix, config) == Success(Then(w1, w2))
  {
    TwoMembers(m1, m2, prefix, config);
  }

  /** Without a selection only the plain key is read: the default section
      is not named `sec`. */
  lemma JsonWithoutSelection(file: string, x: string, v: string, sec: string, y: string, w: string)
    requires '@' !in file && PlainKeyOf(x) && PlainKeyOf(y) && Trimmed(sec) && sec != "default"
    ensures JsonConfigParser(map[file := Parsed(SectionedDocument(x, v, sec, y, w))], ['@'] + file, None) ==
      Success([x, v])
  {
    ReferenceRoundTrip('@', None, '@', file, []);
    assert JoinOn([file] + [], '@') == file;
    SectionedDocumentWalk(x, v, sec, y, w, DefaultConfig);
    assert [x, v] + [] == [x, v];
  }

  /** Requesting the section adds its key and value after the plain one. */
  lemma JsonWithSelection(file: string, x: string, v: string, sec: string, y: string, w: string)
    requires '@' !in file && '@' !in sec && PlainKeyOf(x) && PlainKeyOf(y) && Trimmed(sec)
    ensures JsonConfigParser(map[file := Parsed(SectionedDocument(x, v, sec, y, w))], ['@'] + file + ['@'] + sec, None) ==
      Success([x, v, y, w])
  {
    ReferenceRoundTrip('@', None, '@', file, [sec]);
    assert [file] + [sec] == [file, sec];
    assert JoinOn([file, sec], '@') == file + ['@'] + sec;
    assert ['@'] + file + ['@'] + sec == ['@'] + (file + ['@'] + sec);
    SectionedDocumentWalk(x, v, sec, y, w, [sec]);
    assert [x, v] + [y, w] == [x, v, y, w];
  }

  /** A reference inside a file is expanded before splicing: `@file1` holds
      `@file2`, which holds `--z 9`; files are read by `default_file_parser`. */
  lemma NestedReference()
    ensures var files := map["file1" := ["@file2"], "file2" := ["--z 9"]];
      Expand(["@file1"], "@", (t: string) => DefaultFileParser(files, t), 2) == Success(["--z", "9"])
  {
    var files := map["file1" := ["@file2"], "file2" := ["--z 9"]];
    var parser: FileParser := (t: string) => DefaultFileParser(files, t);
    TwoTokens("--z 9", "--z", "9");
    TokenizeWord("@file2");
    assert ["@file2"][1..] == [] && ["--z 9"][1..] == [];
    assert parser("@file1") == Success(["@file2"]);
    assert parser("@file2") == Success(["--z", "9"]);
    assert ExpandToken("@file2", "@", parser, 1) == Success(["--z", "9"]);
    assert Expand(["@file2"], "@", parser, 1) == Success(["--z", "9"]);
    assert ExpandToken("@file1", "@", parser, 2) == Success(["--z", "9"]);
  }

  /** With `config_parser` reading the files, the same nested reference on a
      line of its own is taken for a section header without a space. */
  lemma NestedReferenceAsHeader()
    ensures ConfigParser(map["file1" := ["@file2"]], "@file1", None) == Failure(HeaderWithoutSpace("@file2"))
  {
    assert ParseReference("@file1", None) == Success(Reference('@', "file1", DefaultConfig, true));
    assert ["@file2"][1..] == [];
    assert ' ' !in "file2";
  }
}
