/** The JSON reader of src/rtb_argparse/config.py: `ParserJson` and its
    wrapper `json_config_parser` (lines 105-152).

    The decoded document is given directly as a tree; decoding the text is
    replaced by a lookup in `docs`, where `Undecodable` marks a file the
    decoder rejects. Objects keep their members in the decoder's order.

    The walk emits, in document order, every plain key followed by its
    value's tokens, and every scalar as one token. A key starting with the
    marker opens a section: its value is walked when the stripped name after
    the marker was requested, and skipped entirely otherwise.
 */
module JsonConfig {
  import opened Results
  import opened Errors
  import opened Text
  import opened Reference

  /** A decoded JSON value. A scalar (string, number, boolean or null) is
      represented by the text Python's `str()` gives it. */
  datatype Json = Object(members: seq<Member>) | Array(items: seq<Json>) | Scalar(text: string)

  datatype Member = Member(key: string, value: Json)

  /** A file as `json.load` sees it. */
  datatype JsonDoc = Parsed(root: Json) | Undecodable

  /** What walking a value contributes: its tokens, and whether it entered a
      requested section (which sets `config_valid`). */
  datatype Walked = Walked(tokens: seq<string>, found: bool)

  const Nothing: Walked := Walked([], false)

  /** Walking one value and then another. */
  function Then(a: Walked, b: Walked): Walked {
    Walked(a.tokens + b.tokens, a.found || b.found)
  }

  /** Sequencing two walks that may have failed: the first failure wins. */
  function AndThen(a: Result<Walked, Error>, b: Result<Walked, Error>): Result<Walked, Error> {
    if a.Failure? then a else if b.Failure? then b else Success(Then(a.value, b.value))
  }

  /** Every key and every scalar text occurring anywhere in a value. */
  function Words(e: Json): set<string>
    decreases e
  {
    match e
    case Scalar(t) => {t}
    case Array(items) => ItemsWords(items)
    case Object(ms) => MembersWords(ms)
  }

  function ItemsWords(items: seq<Json>): set<string>
    decreases items
  {
    if items == [] then {} else Words(items[0]) + ItemsWords(items[1..])
  }

  function MembersWords(ms: seq<Member>): set<string>
    decreases ms
  {
    if ms == [] then {} else MemberWords(ms[0]) + MembersWords(ms[1..])
  }

  function MemberWords(m: Member): set<string>
    decreases m
  {
    {m.key} + Words(m.value)
  }

  /** The stripped section name of a key starting with `prefix`. */
  function SectionName(key: string): string
    requires key != []
  {
    Strip(key[1..])
  }

  /** Some requested section key is reachable in `e`: it lies on the walk's
      path, outside every section that is not requested. */
  predicate Reaches(e: Json, prefix: char, config: seq<string>)
    decreases e
  {
    match e
    case Scalar(_) => false
    case Array(items) => ItemsReach(items, prefix, config)
    case Object(ms) => MembersReach(ms, prefix, config)
  }

  predicate ItemsReach(items: seq<Json>, prefix: char, config: seq<string>)
    decreases items
  {
    items != [] && (Reaches(items[0], prefix, config) || ItemsReach(items[1..], prefix, config))
  }

  predicate MembersReach(ms: seq<Member>, prefix: char, config: seq<string>)
    decreases ms
  {
    ms != [] && (MemberReaches(ms[0], prefix, config) || MembersReach(ms[1..], prefix, config))
  }

  /** A section key reaches exactly when it is requested (its value is then
      entered, but the key alone already counts); a plain key reaches
      through its value. */
  predicate MemberReaches(m: Member, prefix: char, config: seq<string>)
    decreases m
  {
    m.key != [] &&
    if m.key[0] == prefix then SectionName(m.key) in config else Reaches(m.value, prefix, config)
  }

  /** The walk meets an empty key: one that is not hidden inside an
      unrequested section. Its `k[0]` raises the IndexError. */
  predicate HitsEmptyKey(e: Json, prefix: char, config: seq<string>)
    decreases e
  {
    match e
    case Scalar(_) => false
    case Array(items) => ItemsHitEmptyKey(items, prefix, config)
    case Object(ms) => MembersHitEmptyKey(ms, prefix, config)
  }

  predicate ItemsHitEmptyKey(items: seq<Json>, prefix: char, config: seq<string>)
    decreases items
  {
    items != [] && (HitsEmptyKey(items[0], prefix, config) || ItemsHitEmptyKey(items[1..], prefix, config))
  }

  predicate MembersHitEmptyKey(ms: seq<Member>, prefix: char, config: seq<string>)
    decreases ms
  {
    ms != [] && (MemberHitsEmptyKey(ms[0], prefix, config) || MembersHitEmptyKey(ms[1..], prefix, config))
  }

  /** An empty key fails at once; an unrequested section hides its value;
      any other key hands over to its value. */
  predicate MemberHitsEmptyKey(m: Member, prefix: char, config: seq<string>)
    decreases m
  {
    m.key == [] ||
    if m.key[0] == prefix && SectionName(m.key) !in config then false
    else HitsEmptyKey(m.value, prefix, config)
  }

  /** A walk that emits only words of the walked value, and that reports a
      found section exactly when a requested section is reachable. */
  ghost predicate Sound(w: Walked, words: set<string>, reached: bool) {
    && (forall t :: t in w.tokens ==> t in words)
    && (w.found <==> reached)
  }

  /** `parse_element` (config.py:123-141). The only error is the IndexError
      of `k[0]` on an empty key that the walk reaches. */
  function Walk(e: Json, prefix: char, config: seq<string>): (r: Result<Walked, Error>)
    ensures r.Failure? <==> HitsEmptyKey(e, prefix, config)
    ensures r.Failure? ==> r.error == EmptyJsonKey
    ensures r.Success? ==> Sound(r.value, Words(e), Reaches(e, prefix, config))
    decreases e
  {
    match e
    case Scalar(t) => Success(Walked([t], false))
    case Array(items) => WalkItems(items, prefix, config)
    case Object(ms) => WalkMembers(ms, prefix, config)
  }

  /** The loop over a list (config.py:138-139). */
  function WalkItems(items: seq<Json>, prefix: char, config: seq<string>): (r: Result<Walked, Error>)
    ensures r.Failure? <==> ItemsHitEmptyKey(items, prefix, config)
    ensures r.Failure? ==> r.error == EmptyJsonKey
    ensures r.Success? ==> Sound(r.value, ItemsWords(items), ItemsReach(items, prefix, config))
    decreases items
  {
    if items == [] then Success(Nothing)
    else
      var head :- Walk(items[0], prefix, config);
      var tail :- WalkItems(items[1..], prefix, config);
      Success(Then(head, tail))
  }

  /** The loop over a dict's items (config.py:129-136). */
  function WalkMembers(ms: seq<Member>, prefix: char, config: seq<string>): (r: Result<Walked, Error>)
    ensures r.Failure? <==> MembersHitEmptyKey(ms, prefix, config)
    ensures r.Failure? ==> r.error == EmptyJsonKey
    ensures r.Success? ==> Sound(r.value, MembersWords(ms), MembersReach(ms, prefix, config))
    decreases ms
  {
    if ms == [] then Success(Nothing)
    else
      var head :- WalkMember(ms[0], prefix, config);
      var tail :- WalkMembers(ms[1..], prefix, config);
      Success(Then(head, tail))
  }

  /** One key/value pair (config.py:130-136): a requested section is walked
      and marks the walk as found, an unrequested one is skipped, a plain key
      is emitted before its value. */
  function WalkMember(m: Member, prefix: char, config: seq<string>): (r: Result<Walked, Error>)
    ensures m.key == [] ==> r == Failure(EmptyJsonKey)
    ensures r.Failure? <==> MemberHitsEmptyKey(m, prefix, config)
    ensures r.Failure? ==> r.error == EmptyJsonKey
    ensures r.Success? ==> Sound(r.value, MemberWords(m), MemberReaches(m, prefix, config))
    decreases m
  {
    if m.key == [] then Failure(EmptyJsonKey)
    else if m.key[0] == prefix then
      if SectionName(m.key) in config then
        var inner :- Walk(m.value, prefix, config);
        Success(Walked(inner.tokens, true))
      else Success(Nothing)
    else
      var inner :- Walk(m.value, prefix, config);
      Success(Walked([m.key] + inner.tokens, inner.found))
  }

  /** `json_config_parser`: `ParserJson(arg).get_args()`. */
  function JsonConfigParser(docs: map<string, JsonDoc>, arg: string, prefixOverride: Option<string>)
    : (r: Result<seq<string>, Error>)
    ensures ParseReference(arg, prefixOverride).Failure? ==> r == Failure(ParseReference(arg, prefixOverride).error)
    ensures ParseReference(arg, prefixOverride).Success? ==>
      var ref := ParseReference(arg, prefixOverride).value;
      && (ref.filename !in docs ==> r == Failure(FileNotReadable(ref.filename)))
      && (ref.filename in docs && docs[ref.filename].Undecodable? ==> r == Failure(InvalidJson(ref.filename)))
      && (ref.filename in docs && docs[ref.filename].Parsed? && HitsEmptyKey(docs[ref.filename].root, ref.prefix, ref.config)
          ==> r == Failure(EmptyJsonKey))
      && (r.Success? ==> ref.filename in docs && docs[ref.filename].Parsed? &&
                         forall t :: t in r.value ==> t in Words(docs[ref.filename].root))
  {
    var ref :- ParseReference(arg, prefixOverride);
    if ref.filename !in docs then Failure(FileNotReadable(ref.filename))
    else match docs[ref.filename]
      case Undecodable => Failure(InvalidJson(ref.filename))
      case Parsed(root) =>
        var w :- Walk(root, ref.prefix, ref.config);
        GetArgs(ref, ref.valid || w.found, w.tokens)
  }

  lemma {:induction false} WalkItemsAppend(a: seq<Json>, b: seq<Json>, prefix: char, config: seq<string>)
    ensures WalkItems(a + b, prefix, config) == AndThen(WalkItems(a, prefix, config), WalkItems(b, prefix, config))
    decreases |a|
  {
    if a == [] {
      assert a + b == b;
      var rb := WalkItems(b, prefix, config);
      if rb.Success? {
        assert Then(Nothing, rb.value) == rb.value by {
          assert [] + rb.value.tokens == rb.value.tokens;
        }
      }
    } else {
      assert (a + b)[0] == a[0];
      assert (a + b)[1..] == a[1..] + b;
      WalkItemsAppend(a[1..], b, prefix, config);
      var h := Walk(a[0], prefix, config);
      var ra := WalkItems(a[1..], prefix, config);
      var rb := WalkItems(b, prefix, config);
      if h.Success? && ra.Success? && rb.Success? {
        assert Then(h.value, Then(ra.value, rb.value)) == Then(Then(h.value, ra.value), rb.value) by {
          assert h.value.tokens + (ra.value.tokens + rb.value.tokens) ==
                 (h.value.tokens + ra.value.tokens) + rb.value.tokens;
        }
      }
    }
  }

  /** An array contributes the concatenation of its elements' tokens, in
      order, and finds a section if any element does. */
  lemma ArrayConcat(a: seq<Json>, b: seq<Json>, prefix: char, config: seq<string>)
    ensures Walk(Array(a + b), prefix, config) ==
      AndThen(Walk(Array(a), prefix, config), Walk(Array(b), prefix, config))
  {
    WalkItemsAppend(a, b, prefix, config);
  }

  /** An empty array contributes nothing; a non-empty one walks its first
      element and then the rest, so every element contributes its own tokens
      exactly once, in order. */
  lemma ArrayElements(x: Json, b: seq<Json>, prefix: char, config: seq<string>)
    ensures Walk(Array([]), prefix, config) == Success(Nothing)
    ensures Walk(Array([x] + b), prefix, config) == AndThen(Walk(x, prefix, config), Walk(Array(b), prefix, config))
  {
    assert ([x] + b)[0] == x;
    assert ([x] + b)[1..] == b;
  }

  /** A one-element array walks as its element. */
  lemma ArraySingleton(x: Json, prefix: char, config: seq<string>)
    ensures Walk(Array([x]), prefix, config) == Walk(x, prefix, config)
  {
    ArrayElements(x, [], prefix, config);
    assert [x] + [] == [x];
    var rx := Walk(x, prefix, config);
    if rx.Success? {
      assert Then(rx.value, Nothing) == rx.value by {
        assert rx.value.tokens + [] == rx.value.tokens;
      }
    }
  }

  lemma {:induction false} WalkMembersAppend(a: seq<Member>, b: seq<Member>, prefix: char, config: seq<string>)
    ensures WalkMembers(a + b, prefix, config) ==
      AndThen(WalkMembers(a, prefix, config), WalkMembers(b, prefix, config))
    decreases |a|
  {
    if a == [] {
      assert a + b == b;
      var rb := WalkMembers(b, prefix, config);
      if rb.Success? {
        assert Then(Nothing, rb.value) == rb.value by {
          assert [] + rb.value.tokens == rb.value.tokens;
        }
      }
    } else {
      assert (a + b)[0] == a[0];
      assert (a + b)[1..] == a[1..] + b;
      WalkMembersAppend(a[1..], b, prefix, config);
      var h := WalkMember(a[0], prefix, config);
      var ra := WalkMembers(a[1..], prefix, config);
      var rb := WalkMembers(b, prefix, config);
      if h.Success? && ra.Success? && rb.Success? {
        assert Then(h.value, Then(ra.value, rb.value)) == Then(Then(h.value, ra.value), rb.value) by {
          assert h.value.tokens + (ra.value.tokens + rb.value.tokens) ==
                 (h.value.tokens + ra.value.tokens) + rb.value.tokens;
        }
      }
    }
  }

  /** The walk of the object `a + [m] + b` is that of `a`, then `m`, then `b`. */
  lemma MemberInPlace(a: seq<Member>, m: Member, b: seq<Member>, prefix: char, config: seq<string>)
    ensures Walk(Object(a + [m] + b), prefix, config) ==
      AndThen(AndThen(WalkMembers(a, prefix, config), WalkMember(m, prefix, config)),
              WalkMembers(b, prefix, config))
  {
    WalkMembersAppend(a + [m], b, prefix, config);
    WalkMembersAppend(a, [m], prefix, config);
    var rm := WalkMember(m, prefix, config);
    assert [m][1..] == [];
    if rm.Success? {
      assert Then(rm.value, Nothing) == rm.value by {
        assert rm.value.tokens + [] == rm.value.tokens;
      }
    }
  }

  /** A scalar contributes exactly one token, its text, and finds nothing. */
  lemma ScalarOneToken(text: string, prefix: char, config: seq<string>)
    ensures Walk(Scalar(text), prefix, config) == Success(Walked([text], false))
  {
  }

  /** A plain key contributes itself followed by its value's tokens. */
  lemma PlainKey(key: string, v: Json, prefix: char, config: seq<string>)
    requires key != [] && key[0] != prefix
    ensures WalkMember(Member(key, v), prefix, config) ==
      AndThen(Success(Walked([key], false)), Walk(v, prefix, config))
  {
  }

  /** A section key whose name was not requested contributes nothing and does
      not affect validity: the object walks as if the member were absent,
      even when its value would fail. */
  lemma UnrequestedSectionSkipped(a: seq<Member>, key: string, v: Json, b: seq<Member>,
                                  prefix: char, config: seq<string>)
    requires key != [] && key[0] == prefix && SectionName(key) !in config
    ensures Walk(Object(a + [Member(key, v)] + b), prefix, config) == Walk(Object(a + b), prefix, config)
  {
    MemberInPlace(a, Member(key, v), b, prefix, config);
    WalkMembersAppend(a, b, prefix, config);
    var ra := WalkMembers(a, prefix, config);
    if ra.Success? {
      assert Then(ra.value, Nothing) == ra.value by {
        assert ra.value.tokens + [] == ra.value.tokens;
      }
    }
  }

  /** A section key whose name was requested contributes exactly its value's
      tokens and marks the walk as found. */
  lemma RequestedSectionEntered(key: string, v: Json, prefix: char, config: seq<string>)
    requires key != [] && key[0] == prefix && SectionName(key) in config
    ensures WalkMember(Member(key, v), prefix, config) ==
      AndThen(Walk(v, prefix, config), Success(Walked([], true)))
  {
    var rv := Walk(v, prefix, config);
    if rv.Success? {
      assert rv.value.tokens + [] == rv.value.tokens;
    }
  }

  /** When no section name is given in the token, every section other than
      `default` is skipped and the read succeeds unless the walk fails. */
  lemma JsonNoSelection(docs: map<string, JsonDoc>, arg: string, prefixOverride: Option<string>)
    requires ParseReference(arg, prefixOverride).Success?
    requires ParseReference(arg, prefixOverride).value.prefix !in Drop1(arg)
    requires Drop1(arg) in docs && docs[Drop1(arg)].Parsed?
    ensures var w := Walk(docs[Drop1(arg)].root, ParseReference(arg, prefixOverride).value.prefix, ["default"]);
      JsonConfigParser(docs, arg, prefixOverride) ==
        if w.Failure? then Failure(w.error) else Success(w.value.tokens)
  {
  }

  /** With sections named, a failing walk fails the read, and otherwise the
      read fails with `ConfigNotFound` exactly when none of the sections was
      entered: one found section is enough. */
  lemma JsonSelection(docs: map<string, JsonDoc>, arg: string, prefixOverride: Option<string>)
    requires ParseReference(arg, prefixOverride).Success?
    requires ParseReference(arg, prefixOverride).value.prefix in Drop1(arg)
    requires ParseReference(arg, prefixOverride).value.filename in docs
    requires docs[ParseReference(arg, prefixOverride).value.filename].Parsed?
    ensures var ref := ParseReference(arg, prefixOverride).value;
      var w := Walk(docs[ref.filename].root, ref.prefix, ref.config);
      JsonConfigParser(docs, arg, prefixOverride) ==
        if w.Failure? then Failure(w.error)
        else if w.value.found then Success(w.value.tokens)
        else Failure(ConfigNotFound(ref.config, ref.filename))
  {
  }
}
