/**
  The three string helpers of Go's `strings` package that the hosts-file
  rewrite relies on: TrimSpace, Fields and Join. Strings are sequences of
  Unicode code points (Go's runes); white space is Go's `unicode.IsSpace`.
*/
module Strings {

  /** Go's unicode.IsSpace: the Latin-1 spaces plus the Unicode White_Space characters. */
  predicate IsSpace(c: char) {
    || c == ' ' || c == '\t' || c == '\n' || c == '\r' || c == '\U{000B}' || c == '\U{000C}'
    || c == '\U{0085}' || c == '\U{00A0}' || c == '\U{1680}'
    || ('\U{2000}' <= c <= '\U{200A}')
    || c == '\U{2028}' || c == '\U{2029}' || c == '\U{202F}' || c == '\U{205F}' || c == '\U{3000}'
  }

  /** Below U+0100, IsSpace holds exactly for tab, line feed, vertical tab, form
      feed, carriage return, space, U+0085 (NEL) and U+00A0 (NBSP), as Go's
      unicode.IsSpace documents. */
  lemma LatinSpaces(c: char)
    requires c < '\U{0100}'
    ensures IsSpace(c) <==> c in "\t\n\U{000B}\U{000C}\r \U{0085}\U{00A0}"
  {
  }

  predicate NoSpace(s: string) {
    forall i :: 0 <= i < |s| ==> !IsSpace(s[i])
  }

  /** A field as strings.Fields produces it: non-empty and free of white space. */
  predicate IsWord(s: string) {
    |s| > 0 && NoSpace(s)
  }

  predicate AllWords(ws: seq<string>) {
    forall i :: 0 <= i < |ws| ==> IsWord(ws[i])
  }

  /** True when s neither starts nor ends with white space. */
  predicate Trimmed(s: string) {
    s == [] || (!IsSpace(s[0]) && !IsSpace(s[|s| - 1]))
  }

  /** Drops the leading white space; TrimLeftSpec says exactly what is dropped. */
  function TrimLeft(s: string): (r: string)
    ensures |r| <= |s|
    ensures r == [] || !IsSpace(r[0])
    ensures s == [] || !IsSpace(s[0]) ==> r == s
  {
    if s != [] && IsSpace(s[0]) then TrimLeft(s[1..]) else s
  }

  /** Drops the trailing white space; TrimRightSpec says exactly what is dropped. */
  function TrimRight(s: string): (r: string)
    ensures |r| <= |s|
    ensures r != [] ==> r[0] == s[0]
    ensures r == [] || !IsSpace(r[|r| - 1])
    ensures s == [] || !IsSpace(s[|s| - 1]) ==> r == s
  {
    if s != [] && IsSpace(s[|s| - 1]) then TrimRight(s[..|s| - 1]) else s
  }

  /** TrimLeft keeps a suffix of its input and drops only white space. */
  lemma {:induction false} TrimLeftSpec(s: string)
    ensures var r := TrimLeft(s);
      r == s[|s| - |r|..] && forall i :: 0 <= i < |s| - |r| ==> IsSpace(s[i])
  {
    if s != [] && IsSpace(s[0]) {
      TrimLeftSpec(s[1..]);
    }
  }

  /** TrimRight keeps a prefix of its input and drops only white space. */
  lemma {:induction false} TrimRightSpec(s: string)
    ensures var r := TrimRight(s);
      r == s[..|r|] && forall i :: |r| <= i < |s| ==> IsSpace(s[i])
  {
    if s != [] && IsSpace(s[|s| - 1]) {
      TrimRightSpec(s[..|s| - 1]);
    }
  }

  /** strings.TrimSpace: the result has no white space at either end, and a string
      that already has none is returned unchanged (so trimming is idempotent). */
  function TrimSpace(s: string): (r: string)
    ensures Trimmed(r)
    ensures Trimmed(s) ==> r == s
  {
    TrimRight(TrimLeft(s))
  }

  /** strings.TrimSpace returns the slice of s between its leading and its
      trailing white space. */
  lemma TrimSpaceSpec(s: string) returns (a: nat, b: nat)
    ensures a <= b <= |s| && TrimSpace(s) == s[a..b]
    ensures forall i :: 0 <= i < a ==> IsSpace(s[i])
    ensures forall i :: b <= i < |s| ==> IsSpace(s[i])
  {
    var l := TrimLeft(s);
    var r := TrimRight(l);
    assert TrimSpace(s) == r;
    TrimLeftSpec(s);
    TrimRightSpec(l);
    a := |s| - |l|;
    b := a + |r|;
    assert l == s[a..];
    assert r == l[..|r|] == s[a..][..b - a] == s[a..b];
    forall i | b <= i < |s| ensures IsSpace(s[i]) {
      assert s[i] == l[i - a];
    }
  }

  /** The longest prefix of s free of white space (WordSpec). */
  function Word(s: string): (w: string)
    ensures |w| <= |s|
    ensures s != [] && !IsSpace(s[0]) ==> |w| > 0
  {
    if s == [] || IsSpace(s[0]) then [] else [s[0]] + Word(s[1..])
  }

  /** Word returns a white-space-free prefix that stops only at white space or the end. */
  lemma {:induction false} WordSpec(s: string)
    ensures var w := Word(s);
      w == s[..|w|] && NoSpace(w) && (|w| < |s| ==> IsSpace(s[|w|]))
  {
    if s != [] && !IsSpace(s[0]) {
      WordSpec(s[1..]);
    }
  }

  /** strings.Fields: the maximal runs of non-space characters, in order. */
  function Fields(s: string): seq<string>
    decreases |s|
  {
    if s == [] then []
    else if IsSpace(s[0]) then Fields(s[1..])
    else
      var w := Word(s);
      [w] + Fields(s[|w|..])
  }

  /** Every field is non-empty and free of white space. */
  lemma {:induction false} FieldsAreWords(s: string)
    ensures AllWords(Fields(s))
    decreases |s|
  {
    if s == [] {
    } else if IsSpace(s[0]) {
      FieldsAreWords(s[1..]);
    } else {
      var w := Word(s);
      WordSpec(s);
      FieldsAreWords(s[|w|..]);
    }
  }

  /** strings.Join. */
  function Join(ws: seq<string>, sep: string): (r: string)
    ensures ws != [] && ws[0] != [] ==> r != [] && r[0] == ws[0][0]
  {
    if ws == [] then []
    else if |ws| == 1 then ws[0]
    else ws[0] + sep + Join(ws[1..], sep)
  }

  /** A word followed by a space (or nothing) is read back as exactly that word. */
  lemma {:induction false} WordOfPrefix(w: string, rest: string)
    requires NoSpace(w)
    requires rest == [] || IsSpace(rest[0])
    ensures Word(w + rest) == w
  {
    if w != [] {
      assert (w + rest)[1..] == w[1..] + rest;
      WordOfPrefix(w[1..], rest);
    }
  }

  /** The last character of a join of words is the last character of the last word. */
  lemma {:induction false} JoinLast(ws: seq<string>)
    requires ws != [] && AllWords(ws)
    ensures var r := Join(ws, " "); r != [] && r[|r| - 1] == ws[|ws| - 1][|ws[|ws| - 1]| - 1]
  {
    if |ws| > 1 {
      JoinLast(ws[1..]);
    }
  }

  /** Joining words with single spaces yields a string that TrimSpace leaves alone. */
  lemma JoinTrimmed(ws: seq<string>)
    requires AllWords(ws)
    ensures Trimmed(Join(ws, " "))
  {
    if ws != [] {
      JoinLast(ws);
    }
  }

  /** Round trip: splitting a single-space join of words gives the words back. */
  lemma {:induction false} FieldsOfJoin(ws: seq<string>)
    requires AllWords(ws)
    ensures Fields(Join(ws, " ")) == ws
  {
    if ws == [] {
    } else if |ws| == 1 {
      var w := ws[0];
      WordOfPrefix(w, []);
      assert w + [] == w;
      assert w[|w|..] == [];
    } else {
      var w, j := ws[0], Join(ws[1..], " ");
      var s := w + " " + j;
      assert Join(ws, " ") == s;
      WordOfPrefix(w, " " + j);
      assert s == w + (" " + j);
      assert s[|w|..] == " " + j;
      assert (" " + j)[1..] == j;
      FieldsOfJoin(ws[1..]);
    }
  }
}
