# rtb_argparse configuration readers, in Dafny

This project models the core of `rtb_argparse`, a small extension of Python's
`argparse`. On the command line, a token such as `@myfile@config1@config3` is
a file reference. It names a file and, optionally, the configurations
(sections) of that file to read. The library replaces the token, in place, with
the arguments it finds in the file. The model covers:

- the tokenizer `convert_arg_line_to_args` and `default_file_parser`
  (`tokenizer.dfy`, `plain_config.dfy`);
- the reference parser `Parser.__init__` and `Parser.get_args`
  (`reference.dfy`);
- the sectioned plain-text reader `ParserConfig` with `config_parser`
  (`plain_config.dfy`);
- the JSON reader `ParserJson.parse_element` with `json_config_parser`
  (`json_config.dfy`);
- the recursive expander `ArgparseConfig._read_args_from_files`
  (`expander.dfy`);
- the range guards and `dir_add_slash` of `checkers.py`, over integers
  (`checkers.dfy`).

Python's string helpers are modelled in `text.dfy`: the whitespace set of
`str.isspace`, `strip` and `split(c)`. The header cut `split(" ", 1)` is made
in `PlainConfig.ScanLine` and `PlainConfig.HeaderName`, at the first space
that `Text.FirstIndex` finds. Every exception the
code can raise on its inputs becomes a constructor of `Errors.Error` or
`Checkers.CheckError`:

- `IndexError` on an empty token or an empty prefix override;
- `IndexError` on an empty JSON key;
- `ValueError` on a header without a space;
- `ArgumentTypeError` when no requested configuration is found;
- `OSError` for a missing file;
- `JSONDecodeError`;
- `RecursionError` for a self-referencing file.

The file system is a map from file names to contents. A plain-text file is the
list of lines `splitlines` gives. A JSON file is the decoded tree, or
`Undecodable`. `scenarios.dfy` works small examples through the general
lemmas.

On these points the model follows the code:

- A header line is cut at its first single space. A header with no space
  raises, rather than opening an empty section (config.py:171; the class
  docstring at config.py:160-162 shows only headers followed by arguments).
- Lines starting with `#` are not comments. They are ordinary lines, or
  headers when `#` is the marker (config.py:169-170).
- The configuration names in the reference are not stripped. The names in the
  file are stripped (config.py:91 and 172).
- A read succeeds when ANY requested configuration is found, not only when all
  of them are (config.py:173-174, and config.py:130-133 for JSON).
- With `config_parser` as the file parser, a nested reference alone on a line
  (`@other`) is a header without a space, so the read fails
  (`Scenarios.NestedReferenceAsHeader`). Nested references work with
  `default_file_parser` (`Scenarios.NestedReference`).

## Model

| member | source | states |
|---|---|---|
| Tokenizer.Tokenize | src/rtb_argparse/config.py:10-15 | every yielded token is non-empty and free of whitespace |
| Tokenizer.TokenizeIsSplitFiltered | src/rtb_argparse/config.py:12-15 | reference definition: the tokens are exactly the non-empty pieces of the line cut at every whitespace character, in order, as `str.split()` returns them |
| Tokenizer.TokenizeSeparator | src/rtb_argparse/config.py:12 | any whitespace character is a hard boundary: tokenizing `a + c + b` is tokenizing `a`, then `b` |
| Tokenizer.TokenizeWord | src/rtb_argparse/config.py:12-15 | a whitespace-free line is one token, or none when empty |
| Tokenizer.TokenizeJoin | src/rtb_argparse/config.py:10-15 | round trip: tokens joined by single spaces tokenize back to the same tokens |
| Tokenizer.TokenizeKeepsText | src/rtb_argparse/config.py:10-15 | no character is lost or reordered: the concatenated tokens are the line with its whitespace deleted |
| Tokenizer.TokenizeLines | src/rtb_argparse/config.py:24-26 | the tokens of all lines in order, each a proper token |
| Tokenizer.TokenizeLinesJoined | src/rtb_argparse/config.py:18-27 | tokenizing line by line equals tokenizing the whole content joined with line breaks |
| PlainConfig.DefaultFileParser | src/rtb_argparse/config.py:18-27 | fails exactly when the file named by the token minus its first character is missing; otherwise every whitespace-separated token of the content, in order, and nothing for an empty file |
| Reference.ParseReference | src/rtb_argparse/config.py:84-92 | marker is the override's first char, else the token's; fails exactly on an empty token without override or an empty override; valid with config `["default"]` iff the marker does not recur; otherwise the filename and config pieces are marker-free and join back to the text after the first char |
| Reference.ReferenceRoundTrip | src/rtb_argparse/config.py:84-92 | writing `<lead><file>@s1@…` and parsing it back gives the file and the section names unchanged; no sections gives `["default"]` and a valid start |
| Reference.GetArgs | src/rtb_argparse/config.py:97-102 | returns the gathered tokens iff the flag is set, else the error naming the config list and the file |
| PlainConfig.ScanLine | src/rtb_argparse/config.py:169-177 | one line: fails exactly on a header without a space; tokens only grow; the flag is set iff it was or the header names a requested section; a header switches to its stripped name, other lines keep the section |
| PlainConfig.ScanLines | src/rtb_argparse/config.py:167-177 | whole loop: fails exactly when some header lacks a space, and then with the header error; the flag ends set iff it started set or some header names a requested section |
| PlainConfig.ConfigParser | src/rtb_argparse/config.py:164-188 | a reference that cannot be parsed gives its own error (the IndexError of an empty token or prefix), a missing file the not-readable error; on a readable file it fails with the header error exactly when some header has no space, and with the not-found error exactly when the headers are well formed, sections were named and none of them occurs; every returned token is a proper token |
| PlainConfig.ScanLinesAppend | src/rtb_argparse/config.py:169 | scanning `a + b` is scanning `a` and then `b` from the state `a` leaves |
| PlainConfig.EmptyLineIgnored | src/rtb_argparse/config.py:169 | inserting an empty line anywhere changes nothing |
| PlainConfig.ScanBody | src/rtb_argparse/config.py:175-177 | header-free lines add all their tokens when the current section is included and none otherwise; section and flag unchanged |
| PlainConfig.HeaderLine | src/rtb_argparse/config.py:170-174 | a header `<marker><name> <rest>` enters the stripped `name`, sets the flag if it is requested, and emits `rest` only then |
| PlainConfig.ScanSections | src/rtb_argparse/config.py:167-177 | on a file of a header-free preamble followed by sections, the scan yields the preamble's tokens plus exactly the requested sections' tokens, and sets the flag iff some section is requested |
| PlainConfig.ConfigParserSections | src/rtb_argparse/config.py:164-188 | `config_parser` on a sectioned file returns the selected tokens iff no section was named or some named one occurs, else the not-found error |
| PlainConfig.PreambleAlwaysIncluded | src/rtb_argparse/config.py:175 | every successful result starts with the tokens of the lines before the first header, whatever sections are requested |
| PlainConfig.NoSelectionReadsDefault | src/rtb_argparse/config.py:86-87 | a token with no sections reads the preamble plus the sections named `default` and always succeeds |
| PlainConfig.ConfigParserWithoutSections | src/rtb_argparse/config.py:159 | without headers and without sections, `config_parser` agrees with `default_file_parser` |
| JsonConfig.Walk | src/rtb_argparse/config.py:123-141 | fails, with the empty-key error, exactly when the walk meets an empty key outside every unrequested section; every emitted token is a key or scalar of the value, and `found` is set exactly when a requested section key lies outside every unrequested section |
| JsonConfig.WalkMember | src/rtb_argparse/config.py:129-136 | same, for one key/value pair; an empty key fails outright, as `k[0]` raises |
| JsonConfig.JsonConfigParser | src/rtb_argparse/config.py:113-121 | a reference that cannot be parsed gives its own error (the IndexError of an empty token or prefix); a missing file and an undecodable file give their errors; a document whose walk meets an empty key gives the empty-key error; on success every token is a key or scalar of the document |
| JsonConfig.ScalarOneToken | src/rtb_argparse/config.py:140-141 | a scalar contributes exactly one token, its text |
| JsonConfig.ArrayConcat | src/rtb_argparse/config.py:137-139 | an array walks as the concatenation of its parts, first failure winning |
| JsonConfig.ArrayElements | src/rtb_argparse/config.py:137-139 | an empty array yields nothing; a non-empty one yields its first element's walk and then the rest's, so each element contributes its own tokens once, in order |
| JsonConfig.ArraySingleton | src/rtb_argparse/config.py:137-139 | a one-element array walks exactly as its element |
| JsonConfig.MemberInPlace | src/rtb_argparse/config.py:129-136 | an object walks as its members in order, each in place |
| JsonConfig.PlainKey | src/rtb_argparse/config.py:134-136 | a plain key emits itself and then its value's tokens |
| JsonConfig.UnrequestedSectionSkipped | src/rtb_argparse/config.py:130-131 | an unrequested section member may be deleted without changing the walk, even if its value would fail |
| JsonConfig.RequestedSectionEntered | src/rtb_argparse/config.py:131-133 | a requested section emits exactly its value's tokens and sets `found` |
| JsonConfig.JsonNoSelection | src/rtb_argparse/config.py:86-92 | without sections in the token, the result is the walk under `["default"]` and cannot be the not-found error |
| JsonConfig.JsonSelection | src/rtb_argparse/config.py:97-102 | with sections named, a failing walk fails the read with its error; otherwise the result is the walk's tokens iff some requested section was entered, else the not-found error |
| Expander.Expand | src/rtb_argparse/config.py:39-59 | on success no reference remains; a list without references comes back unchanged |
| Expander.ExpandToken | src/rtb_argparse/config.py:45-53 | a plain token stays itself; a reference at the depth limit fails with the recursion error; a reference whose file cannot be read fails with the reader's error; any success is reference-free |
| Expander.ExpandIdempotent | src/rtb_argparse/config.py:42-53 | expanding the result of a successful expansion again returns it unchanged, whatever the depth budget |
| Expander.ExpandAppend | src/rtb_argparse/config.py:42-53 | expansion distributes over concatenation, first failure winning |
| Expander.PlainTokenInPlace | src/rtb_argparse/config.py:45-46 | a plain token keeps its place between its neighbours' expansions |
| Expander.ReferenceSpliced | src/rtb_argparse/config.py:49-53 | a reference is replaced in place by its file's tokens, themselves expanded one level deeper |
| Expander.ExpandFuelMonotone | src/rtb_argparse/config.py:52 | raising the depth limit never changes an outcome not cut short by it |
| Checkers.CheckSuperior | src/rtb_argparse/checkers.py:23-27 | accepts iff value >= ref, returning the value unchanged; otherwise the error naming both |
| Checkers.CheckInferior | src/rtb_argparse/checkers.py:30-34 | accepts iff value <= ref, returning the value unchanged |
| Checkers.CheckStrictlySuperior | src/rtb_argparse/checkers.py:37-41 | as written: accepts iff value >= ref |
| Checkers.CheckStrictlySuperiorIntended | src/rtb_argparse/checkers.py:38 | corrected: accepts iff value > ref |
| Checkers.CheckStrictlyInferior | src/rtb_argparse/checkers.py:44-48 | as written: accepts iff value >= ref |
| Checkers.CheckStrictlyInferiorIntended | src/rtb_argparse/checkers.py:45 | corrected: accepts iff value < ref |
| Checkers.StrictGuardsMisbehave | src/rtb_argparse/checkers.py:37-48 | concrete inputs on which the written strict guards and their docstrings disagree |
| Checkers.StrictGuardsAsWritten | src/rtb_argparse/checkers.py:37-48 | for all inputs, the written strict-superior guard is the non-strict one, and the written strict-inferior guard accepts the complement of the intended one |
| Checkers.CheckBetween | src/rtb_argparse/checkers.py:51-55 | accepts iff inferior <= value <= superior |
| Checkers.BetweenIsBothBounds | src/rtb_argparse/checkers.py:51-55 | `check_between` accepts exactly what passes both one-sided guards |
| Checkers.CheckStrictlyBetween | src/rtb_argparse/checkers.py:58-62 | accepts iff inferior < value < superior |
| Checkers.StrictlyBetweenIsBothBounds | src/rtb_argparse/checkers.py:58-62 | `check_strictly_between` accepts exactly what passes both corrected strict guards |
| Checkers.DirAddSlash | src/rtb_argparse/checkers.py:87-91 | fails exactly on the empty path; the result ends with `/`, and is the path itself when it already did, else the path plus `/` |
| Checkers.DirAddSlashIdempotent | src/rtb_argparse/checkers.py:87-91 | applying it twice is applying it once |
| Scenarios.PlainSelectOne | src/rtb_argparse/config.py:164-177 | `@file@s2` on a file with a preamble and sections `s1`, `s2` returns the preamble and `s2` only |
| Scenarios.PlainSelectMissing | src/rtb_argparse/config.py:97-101 | requesting an absent section fails, naming the list and the file |
| Scenarios.PlainSelectAnyOf | src/rtb_argparse/config.py:173-174 | one present section among those requested is enough |
| Scenarios.PlainBareHeader | src/rtb_argparse/config.py:171 | a header with nothing after the name is an error |
| Scenarios.PlainWithoutSections | src/rtb_argparse/config.py:164-177 | `@file` on a header-free file of `--a 1` and `--b 2` returns `--a 1 --b 2` |
| Scenarios.SectionedDocumentWalk | src/rtb_argparse/config.py:128-136 | the document `{x: v, "@sec": {y: w}}` yields `x v`, plus `y w` and `found` exactly when `sec` is requested |
| Scenarios.JsonWithoutSelection | src/rtb_argparse/config.py:123-136 | `@file` on that document, with `sec` not named `default`, returns only `x v` |
| Scenarios.JsonWithSelection | src/rtb_argparse/config.py:144-152 | `@file@sec` on that document returns `x v y w` |
| Scenarios.NestedReference | src/rtb_argparse/config.py:49-53 | a reference inside a file read by `default_file_parser` is expanded before splicing |
| Scenarios.NestedReferenceAsHeader | src/rtb_argparse/config.py:170-171 | with `config_parser`, the same nested reference alone on a line fails as a header without a space |

## Left out

- File I/O, `open`, `read` and `splitlines`: files are given as their lines, or as a decoded JSON tree, in a map.
- JSON decoding: `Undecodable` stands for any text `json.load` rejects. The order of members is the decoder's order. Duplicate keys are assumed already resolved by the decoder.
- `str()` of JSON scalars: a scalar is represented by its text.
- The `verbose` printing in `Parser.__init__`.
- `self.error` in `_read_args_from_files`: it prints and exits the program. It is modelled as the failure result carried out of `Expand`.
- Which exceptions `_read_args_from_files` catches: only `OSError` becomes `self.error`, and the others propagate. The model returns every failure as a result, without distinguishing how argparse reports it.
- Expander.Expand: a file that references itself recurses until Python's recursion limit. `fuel` stands for that limit, and `RecursionLimit` for the `RecursionError`. The model does not fix the interpreter's actual depth.
- The argparse plumbing: the `ArgparseConfig` constructor, the `fromfile_prefix_chars` option, and the rest of `ArgumentParser`.
- The range guards take any Python `Number`. The model uses unbounded integers. Floats, NaN and mixed numeric types are not modelled.
- `check_type`, `do_literal_eval`, `eval_string`, `check_is_file`, `check_is_dir` and `check_file_extension`: they call into `isinstance`, `ast.literal_eval` and `os.path`, which are not part of this model.
- `formatters.py`: help-text formatting, outside the configuration readers.
- Scenarios: the plain-text examples use literal files. The JSON examples use symbolic keys and values, with side conditions.

## Findings

| source | as written | input that shows it | evidently intended | confidence | as-written member | corrected member |
|---|---|---|---|---|---|---|
| src/rtb_argparse/checkers.py:37-41 | `check_strictly_superior` raises only when `value < ref`, so it accepts `value == ref` | `check_strictly_superior(3, 3)` returns 3 | raise when `value <= ref`, as the docstring `value > ref` says | high (not executed) | Checkers.CheckStrictlySuperior, Checkers.StrictGuardsMisbehave | Checkers.CheckStrictlySuperiorIntended |
| src/rtb_argparse/checkers.py:44-48 | `check_strictly_inferior` raises when `value < ref`, the opposite of its docstring | `check_strictly_inferior(1, 2)` raises; `check_strictly_inferior(3, 2)` returns 3 | raise when `value >= ref`, as the docstring `value < ref` says | high (not executed) | Checkers.CheckStrictlyInferior, Checkers.StrictGuardsMisbehave | Checkers.CheckStrictlyInferiorIntended |
