/** String helpers with Python's semantics: the whitespace class used by
    `str.split()` and `str.strip()`, stripping, and splitting on one character.
 */
module Text {

  /** Python's `str.isspace` for one character: the characters `str.split()`
      with no argument splits on and `str.strip()` removes. */
  predicate IsSpace(c: char) {
    || c == ' '
    || ('\t' <= c <= '\r')
    || ('\U{1C}' <= c <= '\U{1F}')
    || c == '\U{85}'
    || c == '\U{A0}'
    || c == '\U{1680}'
    || ('\U{2000}' <= c <= '\U{200A}')
    || c == '\U{2028}'
    || c == '\U{2029}'
    || c == '\U{202F}'
    || c == '\U{205F}'
    || c == '\U{3000}'
  }

  predicate NoSpace(s: string) {
    forall i :: 0 <= i < |s| ==> !IsSpace(s[i])
  }

  predicate AllSpace(s: string) {
    forall i :: 0 <= i < |s| ==> IsSpace(s[i])
  }

  /** Neither end of `s` is whitespace: what `str.strip()` leaves. */
  predicate Trimmed(s: string) {
    s == [] || (!IsSpace(s[0]) && !IsSpace(s[|s| - 1]))
  }

  /** `s` with its leading whitespace removed. */
  function StripStart(s: string): (r: string)
    ensures |r| <= |s| && r == s[|s| - |r|..]
    ensures AllSpace(s[..|s| - |r|])
    ensures r == [] || !IsSpace(r[0])
  {
    if s != [] && IsSpace(s[0]) then StripStart(s[1..]) else s
  }

  /** `s` with its trailing whitespace removed. */
  function StripEnd(s: string): (r: string)
    ensures |r| <= |s| && r == s[..|r|]
    ensures AllSpace(s[|r|..])
    ensures r == [] || !IsSpace(r[|r| - 1])
  {
    if s != [] && IsSpace(s[|s| - 1]) then StripEnd(s[..|s| - 1]) else s
  }

  /** Python's `s.strip()`: the result has no whitespace at either end, and a
      string that already has none is returned unchanged. */
  function Strip(s: string): (r: string)
    ensures Trimmed(r)
    ensures Trimmed(s) ==> r == s
  {
    var t := StripStart(s);
    assert t != [] && !IsSpace(t[|t| - 1]) ==> StripEnd(t) == t;
    StripEnd(t)
  }

  /** The position of the first `c` in `s`, as `s.index(c)` finds it. */
  function FirstIndex(s: string, c: char): (i: nat)
    requires c in s
    ensures i < |s| && s[i] == c && c !in s[..i]
  {
    if s[0] == c then 0 else 1 + FirstIndex(s[1..], c)
  }

  /** The first `c` after a word free of `c` is the one right after it. */
  lemma {:induction false} FirstIndexAfterWord(w: string, c: char, t: string)
    requires c !in w
    ensures FirstIndex(w + [c] + t, c) == |w|
    decreases |w|
  {
    if w != [] {
      assert w[0] in w;
      assert (w + [c] + t)[1..] == w[1..] + [c] + t;
      FirstIndexAfterWord(w[1..], c, t);
    }
  }

  /** `c.join(pieces)`: the pieces with one `c` between neighbours. */
  function JoinOn(pieces: seq<string>, c: char): string
    requires |pieces| >= 1
  {
    if |pieces| == 1 then pieces[0] else pieces[0] + [c] + JoinOn(pieces[1..], c)
  }

  /** Python's `s.split(c)`: the maximal runs of `s` free of `c`, including
      the empty runs around adjacent or trailing separators. Joining the
      pieces back with `c` restores `s`. */
  function SplitOn(s: string, c: char): (r: seq<string>)
    ensures |r| >= 1
    ensures forall p :: p in r ==> c !in p
    ensures JoinOn(r, c) == s
  {
    if s == [] then [[]]
    else
      var rest := SplitOn(s[1..], c);
      if s[0] == c then
        assert JoinOn([[]] + rest, c) == [c] + JoinOn(rest, c) by {
          assert ([[]] + rest)[1..] == rest;
        }
        [[]] + rest
      else
        var r := [[s[0]] + rest[0]] + rest[1..];
        assert r[1..] == rest[1..];
        assert JoinOn(r, c) == [s[0]] + JoinOn(rest, c) by {
          if |rest| > 1 {
            assert JoinOn(rest, c) == rest[0] + [c] + JoinOn(rest[1..], c);
          }
        }
        assert s == [s[0]] + s[1..];
        r
  }

  /** Splitting a word free of `c` that is followed by `t` glues the word onto
      the first piece of `t`. */
  lemma {:induction false} SplitOnWord(w: string, t: string, c: char)
    requires c !in w
    ensures SplitOn(w + t, c) == [w + SplitOn(t, c)[0]] + SplitOn(t, c)[1..]
    decreases |w|
  {
    var st := SplitOn(t, c);
    if w == [] {
      assert w + t == t && w + st[0] == st[0];
      assert st == [st[0]] + st[1..];
    } else {
      assert (w + t)[1..] == w[1..] + t;
      assert w[0] != c by { assert w[0] in w; }
      SplitOnWord(w[1..], t, c);
      var rest := SplitOn(w[1..] + t, c);
      assert rest[0] == w[1..] + st[0];
      assert rest[1..] == st[1..];
      assert [w[0]] + (w[1..] + st[0]) == w + st[0];
    }
  }

  /** `split` undoes `join` when no piece contains the separator. */
  lemma {:induction false} SplitOnJoinOn(pieces: seq<string>, c: char)
    requires |pieces| >= 1
    requires forall p :: p in pieces ==> c !in p
    ensures SplitOn(JoinOn(pieces, c), c) == pieces
    decreases |pieces|
  {
    if |pieces| == 1 {
      SplitOnWord(pieces[0], [], c);
      assert pieces[0] + [] == pieces[0];
    } else {
      var tail := JoinOn(pieces[1..], c);
      SplitOnJoinOn(pieces[1..], c);
      assert pieces[0] + [c] + tail == pieces[0] + ([c] + tail);
      SplitOnWord(pieces[0], [c] + tail, c);
      assert ([c] + tail)[1..] == tail;
      var sc := SplitOn([c] + tail, c);
      assert sc == [[]] + SplitOn(tail, c);
      assert sc[0] == [] && sc[1..] == pieces[1..];
      assert pieces[0] + sc[0] == pieces[0];
      assert pieces == [pieces[0]] + pieces[1..];
    }
  }

  /** The separator occurs in a join exactly when there is more than one
      piece free of it. */
  lemma {:induction false} JoinOnContains(pieces: seq<string>, c: char)
    requires |pieces| >= 1
    requires forall p :: p in pieces ==> c !in p
    ensures c in JoinOn(pieces, c) <==> |pieces| >= 2
  {
    if |pieces| >= 2 {
      var j := JoinOn(pieces, c);
      assert j[|pieces[0]|] == c;
    }
  }
}
