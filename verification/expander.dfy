/** `ArgparseConfig._read_args_from_files` (src/rtb_argparse/config.py:39-59):
    every token that starts with one of the prefix characters is replaced, in
    place, by the tokens the injected file parser returns for it, expanded in
    turn; every other token is kept where it is.

    The source does not guard against a file that references itself; the
    interpreter's recursion limit then stops it with a RecursionError. Here
    `fuel` is that limit: the depth of nested references still allowed.
 */
module Expander {
  import opened Results
  import opened Errors

  /** The injected `file_parser`: from a reference token to its tokens. */
  type FileParser = string -> Result<seq<string>, Error>

  /** A token the expander hands to the file parser (config.py:45). */
  predicate IsReference(t: string, prefixChars: string) {
    t != [] && t[0] in prefixChars
  }

  predicate NoReferences(ts: seq<string>, prefixChars: string) {
    forall i :: 0 <= i < |ts| ==> !IsReference(ts[i], prefixChars)
  }

  /** The loop of config.py:42-56. On success no reference is left, and a
      list without references comes back unchanged. */
  function Expand(ts: seq<string>, prefixChars: string, parser: FileParser, fuel: nat)
    : (r: Result<seq<string>, Error>)
    ensures r.Success? ==> NoReferences(r.value, prefixChars)
    ensures NoReferences(ts, prefixChars) ==> r == Success(ts)
    decreases fuel, |ts|, 1
  {
    if ts == [] then Success([])
    else
      var head :- ExpandToken(ts[0], prefixChars, parser, fuel);
      var tail :- Expand(ts[1..], prefixChars, parser, fuel);
      assert NoReferences(ts, prefixChars) ==> head == [ts[0]] && tail == ts[1..];
      assert [ts[0]] + ts[1..] == ts;
      Success(head + tail)
  }

  /** One token of the loop: a plain token is kept, a reference is parsed and
      its tokens expanded one level deeper (config.py:45-53). */
  function ExpandToken(t: string, prefixChars: string, parser: FileParser, fuel: nat)
    : (r: Result<seq<string>, Error>)
    ensures r.Success? ==> NoReferences(r.value, prefixChars)
    ensures !IsReference(t, prefixChars) ==> r == Success([t])
    ensures IsReference(t, prefixChars) && fuel == 0 ==> r == Failure(RecursionLimit(t))
    ensures IsReference(t, prefixChars) && fuel > 0 && parser(t).Failure? ==> r == Failure(parser(t).error)
    decreases fuel, 0, 0
  {
    if !IsReference(t, prefixChars) then Success([t])
    else if fuel == 0 then Failure(RecursionLimit(t))
    else
      var inner :- parser(t);
      Expand(inner, prefixChars, parser, fuel - 1)
  }

  /** Joins two expansions: the first failure wins, as the loop stops at the
      first token whose file cannot be read. */
  function Both(a: Result<seq<string>, Error>, b: Result<seq<string>, Error>): Result<seq<string>, Error> {
    if a.Failure? then a else if b.Failure? then b else Success(a.value + b.value)
  }

  /** Expansion distributes over concatenation. */
  lemma {:induction false} ExpandAppend(a: seq<string>, b: seq<string>, prefixChars: string,
                                        parser: FileParser, fuel: nat)
    ensures Expand(a + b, prefixChars, parser, fuel) ==
      Both(Expand(a, prefixChars, parser, fuel), Expand(b, prefixChars, parser, fuel))
    decreases |a|
  {
    if a == [] {
      assert a + b == b;
      var rb := Expand(b, prefixChars, parser, fuel);
      if rb.Success? {
        assert [] + rb.value == rb.value;
      }
    } else {
      assert (a + b)[0] == a[0];
      assert (a + b)[1..] == a[1..] + b;
      ExpandAppend(a[1..], b, prefixChars, parser, fuel);
      var h := ExpandToken(a[0], prefixChars, parser, fuel);
      var ra := Expand(a[1..], prefixChars, parser, fuel);
      var rb := Expand(b, prefixChars, parser, fuel);
      if h.Success? && ra.Success? && rb.Success? {
        assert h.value + (ra.value + rb.value) == (h.value + ra.value) + rb.value;
      }
    }
  }

  /** A plain token stays at its place between the expansions of its
      neighbours. */
  lemma PlainTokenInPlace(a: seq<string>, t: string, b: seq<string>, prefixChars: string,
                          parser: FileParser, fuel: nat)
    requires !IsReference(t, prefixChars)
    ensures Expand(a + [t] + b, prefixChars, parser, fuel) ==
      Both(Both(Expand(a, prefixChars, parser, fuel), Success([t])), Expand(b, prefixChars, parser, fuel))
  {
    ExpandAppend(a + [t], b, prefixChars, parser, fuel);
    ExpandAppend(a, [t], prefixChars, parser, fuel);
    ExpandAppend([t], [], prefixChars, parser, fuel);
    assert [t] + [] == [t];
  }

  /** A reference is replaced in place by its file's tokens, themselves
      expanded with one level less of nesting. */
  lemma ReferenceSpliced(a: seq<string>, t: string, b: seq<string>, prefixChars: string,
                         parser: FileParser, fuel: nat)
    requires IsReference(t, prefixChars) && fuel > 0
    ensures Expand(a + [t] + b, prefixChars, parser, fuel) ==
      Both(Both(Expand(a, prefixChars, parser, fuel),
                if parser(t).Failure? then Failure(parser(t).error)
                else Expand(parser(t).value, prefixChars, parser, fuel - 1)),
           Expand(b, prefixChars, parser, fuel))
  {
    ExpandAppend(a + [t], b, prefixChars, parser, fuel);
    ExpandAppend(a, [t], prefixChars, parser, fuel);
    var rt := ExpandToken(t, prefixChars, parser, fuel);
    assert [t][1..] == [];
    if rt.Success? {
      assert rt.value + [] == rt.value;
    }
  }

  /** Expanding an expansion changes nothing. */
  lemma ExpandIdempotent(ts: seq<string>, prefixChars: string, parser: FileParser, fuel: nat, fuel': nat)
    requires Expand(ts, prefixChars, parser, fuel).Success?
    ensures Expand(Expand(ts, prefixChars, parser, fuel).value, prefixChars, parser, fuel') ==
      Expand(ts, prefixChars, parser, fuel)
  {
  }

  /** More nesting allowance never changes an outcome that was not cut short
      by the limit: fuel only stands for the interpreter's recursion limit. */
  lemma {:induction false} ExpandFuelMonotone(ts: seq<string>, prefixChars: string, parser: FileParser,
                                              fuel: nat, more: nat)
    requires more >= fuel
    requires var r := Expand(ts, prefixChars, parser, fuel); r.Success? || !r.error.RecursionLimit?
    ensures Expand(ts, prefixChars, parser, more) == Expand(ts, prefixChars, parser, fuel)
    decreases fuel, |ts|
  {
    if ts != [] {
      var h := ExpandToken(ts[0], prefixChars, parser, fuel);
      ExpandTokenFuelMonotone(ts[0], prefixChars, parser, fuel, more);
      if h.Success? {
        ExpandFuelMonotone(ts[1..], prefixChars, parser, fuel, more);
      }
    }
  }

  lemma {:induction false} ExpandTokenFuelMonotone(t: string, prefixChars: string, parser: FileParser,
                                                   fuel: nat, more: nat)
    requires more >= fuel
    requires var r := ExpandToken(t, prefixChars, parser, fuel); r.Success? || !r.error.RecursionLimit?
    ensures ExpandToken(t, prefixChars, parser, more) == ExpandToken(t, prefixChars, parser, fuel)
    decreases fuel, 0
  {
    if IsReference(t, prefixChars) && fuel > 0 && parser(t).Success? {
      ExpandFuelMonotone(parser(t).value, prefixChars, parser, fuel - 1, more - 1);
    }
  }
}
