/** The state a configuration reader starts from: `Parser.__init__` and
    `Parser.get_args` (src/rtb_argparse/config.py:65-102).

    A reference token such as `@myfile@config1@config3` names a file and,
    optionally, the configurations (sections) of that file to read.
 */
module Reference {
  import opened Results
  import opened Errors
  import opened Text

  /** The parsed reference. `valid` is the starting value of `config_valid`:
      true when no configuration was named, false when at least one was,
      until a reader finds one of them. */
  datatype Reference = Reference(prefix: char, filename: string, config: seq<string>, valid: bool)

  /** The configuration list when the token names none. */
  const DefaultConfig: seq<string> := ["default"]

  /** Python's `s[1:]`, which is empty for the empty string. */
  function Drop1(s: string): (r: string)
    ensures |s| >= 1 ==> s == [s[0]] + r
    ensures |s| == 0 ==> r == []
  {
    if s == [] then [] else s[1..]
  }

  /** `Parser.__init__` without the `verbose` printing.

      The marker is the override's first character when one is given, else
      the token's own first character; the filename is everything after the
      token's first character, whatever that character is. When the marker
      occurs there again, the text is split on every occurrence: the first
      piece is the filename and the others, untrimmed and possibly empty, are
      the requested configurations. */
  function ParseReference(arg: string, prefixOverride: Option<string>): (r: Result<Reference, Error>)
    ensures r.Failure? <==> (prefixOverride.None? && arg == []) || prefixOverride == Some([])
    ensures r.Failure? ==> r.error == (if prefixOverride.None? then EmptyArgument else EmptyPrefixOverride)
    ensures r.Success? ==>
      r.value.prefix == (if prefixOverride.None? then arg[0] else prefixOverride.value[0])
    ensures r.Success? ==> (r.value.valid <==> r.value.prefix !in Drop1(arg))
    ensures r.Success? && r.value.valid ==>
      r.value.filename == Drop1(arg) && r.value.config == DefaultConfig
    ensures r.Success? && !r.value.valid ==>
      && |r.value.config| >= 1
      && JoinOn([r.value.filename] + r.value.config, r.value.prefix) == Drop1(arg)
      && r.value.prefix !in r.value.filename
      && forall s :: s in r.value.config ==> r.value.prefix !in s
  {
    if prefixOverride.None? && arg == [] then Failure(EmptyArgument)
    else if prefixOverride == Some([]) then Failure(EmptyPrefixOverride)
    else
      var prefix := if prefixOverride.None? then arg[0] else prefixOverride.value[0];
      var filename := Drop1(arg);
      if prefix in filename then
        var pieces := SplitOn(filename, prefix);
        JoinOnContains(pieces, prefix);
        assert pieces == [pieces[0]] + pieces[1..];
        assert pieces[0] in pieces;
        assert forall s :: s in pieces[1..] ==> s in pieces;
        Success(Reference(prefix, pieces[0], pieces[1..], false))
      else
        Success(Reference(prefix, filename, DefaultConfig, true))
  }

  /** Writing a reference out and parsing it back gives the filename and the
      sections unchanged, as long as none of them contains the marker; with
      no sections the configuration is `["default"]` and the parse starts
      valid, with sections it starts invalid. */
  lemma ReferenceRoundTrip(lead: char, prefixOverride: Option<string>, p: char,
                           filename: string, sections: seq<string>)
    requires prefixOverride.None? ==> lead == p
    requires prefixOverride.Some? ==> prefixOverride.value != [] && prefixOverride.value[0] == p
    requires p !in filename
    requires forall s :: s in sections ==> p !in s
    ensures ParseReference([lead] + JoinOn([filename] + sections, p), prefixOverride)
            == Success(if sections == []
                       then Reference(p, filename, DefaultConfig, true)
                       else Reference(p, filename, sections, false))
  {
    var pieces := [filename] + sections;
    assert forall s :: s in pieces ==> p !in s;
    var arg := [lead] + JoinOn(pieces, p);
    assert Drop1(arg) == JoinOn(pieces, p);
    JoinOnContains(pieces, p);
    if sections != [] {
      SplitOnJoinOn(pieces, p);
      assert pieces[1..] == sections;
    }
  }

  /** `Parser.get_args`: the tokens gathered by a reader, or the error naming
      the configurations and the file when none of the requested
      configurations was found. */
  function GetArgs(ref: Reference, valid: bool, tokens: seq<string>): (r: Result<seq<string>, Error>)
    ensures r.Success? <==> valid
    ensures r.Success? ==> r.value == tokens
    ensures r.Failure? ==> r.error == ConfigNotFound(ref.config, ref.filename)
  {
    if !valid then Failure(ConfigNotFound(ref.config, ref.filename)) else Success(tokens)
  }
}
