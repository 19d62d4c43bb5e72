/**
 The string transforms behind importing and exporting the name list:
 ECMAScript `String.prototype.trim`, `split("\n")` and `join("\n")`,
 on strings as sequences of characters.
 */
module Text {

  const Newline: char := '\n'

  /**
   The characters `trim` strips: ECMAScript WhiteSpace (tab, vertical tab,
   form feed, space, no-break space, the byte-order mark and the Unicode
   space separators) and LineTerminator (line feed, carriage return, line
   and paragraph separators).
   */
  predicate IsWhitespace(c: char)
  {
    || c == '\t' || c == '\U{000B}' || c == '\U{000C}' || c == ' '
    || c == '\U{00A0}' || c == '\U{FEFF}'
    || c == '\U{1680}' || ('\U{2000}' <= c <= '\U{200A}')
    || c == '\U{202F}' || c == '\U{205F}' || c == '\U{3000}'
    || c == '\n' || c == '\r' || c == '\U{2028}' || c == '\U{2029}'
  }

  /** `r` is the slice of `s` starting at `i`, and all of `s` around it is whitespace. */
  ghost predicate IsCore(r: string, s: string, i: int)
  {
    && 0 <= i <= i + |r| <= |s| && r == s[i..i + |r|]
    && (forall k :: 0 <= k < i ==> IsWhitespace(s[k]))
    && (forall k :: i + |r| <= k < |s| ==> IsWhitespace(s[k]))
  }

  /** Blank: empty or whitespace only, so that trimming leaves `""`. */
  predicate IsBlank(s: string)
  {
    forall i :: 0 <= i < |s| ==> IsWhitespace(s[i])
  }

  /** Neither end of `s` is whitespace: `trim` has nothing to strip. */
  predicate IsTrimmed(s: string)
  {
    s == [] || (!IsWhitespace(s[0]) && !IsWhitespace(s[|s| - 1]))
  }

  /** The first index at or after `i` whose character is not whitespace, or `|s|`. */
  function SkipLeading(s: string, i: nat): (k: nat)
    requires i <= |s|
    ensures i <= k <= |s|
    ensures forall j :: i <= j < k ==> IsWhitespace(s[j])
    ensures k < |s| ==> !IsWhitespace(s[k])
    decreases |s| - i
  {
    if i < |s| && IsWhitespace(s[i]) then SkipLeading(s, i + 1) else i
  }

  /**
   The end, at or before `e` and no lower than `lo`, of `s` with trailing
   whitespace dropped.
   */
  function SkipTrailing(s: string, lo: nat, e: nat): (k: nat)
    requires lo <= e <= |s|
    ensures lo <= k <= e
    ensures forall j :: k <= j < e ==> IsWhitespace(s[j])
    ensures k > lo ==> !IsWhitespace(s[k - 1])
    decreases e
  {
    if e > lo && IsWhitespace(s[e - 1]) then SkipTrailing(s, lo, e - 1) else e
  }

  /**
   `s.trim()`: `s` with whitespace stripped from both ends. The result is a
   slice of `s` with only whitespace around it, it has no whitespace at
   either end, and it is empty exactly when `s` is blank.
   */
  function Trim(s: string): (r: string)
    ensures IsTrimmed(r)
    ensures exists i :: IsCore(r, s, i)
    ensures r == [] <==> IsBlank(s)
  {
    var i := SkipLeading(s, 0);
    var e := SkipTrailing(s, i, |s|);
    TrimFacts(s, i, e);
    s[i..e]
  }

  lemma TrimFacts(s: string, i: nat, e: nat)
    requires i == SkipLeading(s, 0) && i <= |s|
    requires e == SkipTrailing(s, i, |s|)
    ensures IsTrimmed(s[i..e])
    ensures IsCore(s[i..e], s, i)
    ensures s[i..e] == [] <==> IsBlank(s)
  {
    var r := s[i..e];
    if r != [] {
      assert r[0] == s[i] && r[|r| - 1] == s[e - 1];
    }
    if IsBlank(s) {
      assert i == |s|;
    }
  }

  lemma {:induction false} TrimOfTrimmed(s: string)
    requires IsTrimmed(s)
    ensures Trim(s) == s
  {
    if s != [] {
      assert SkipLeading(s, 0) == 0;
      assert SkipTrailing(s, 0, |s|) == |s|;
    }
  }

  /** Trimming twice is trimming once. */
  lemma TrimIdempotent(s: string)
    ensures Trim(Trim(s)) == Trim(s)
  {
    TrimOfTrimmed(Trim(s));
  }

  /** `s.split("\n")`: the pieces between line feeds, always at least one. */
  function Split(s: string): (r: seq<string>)
    ensures |r| >= 1
    ensures forall k :: 0 <= k < |r| ==> Newline !in r[k]
    decreases |s|
  {
    if Newline in s then
      var i := IndexOf(s, Newline);
      [s[..i]] + Split(s[i + 1..])
    else
      [s]
  }

  /** The position of the first `c` in `s`. */
  function IndexOf(s: string, c: char): (i: nat)
    requires c in s
    ensures i < |s| && s[i] == c && c !in s[..i]
  {
    if s[0] == c then 0 else 1 + IndexOf(s[1..], c)
  }

  /** `xs.join("\n")`: the pieces with one line feed between neighbours. */
  function Join(xs: seq<string>): string
    decreases |xs|
  {
    if xs == [] then ""
    else if |xs| == 1 then xs[0]
    else xs[0] + [Newline] + Join(xs[1..])
  }

  /**
   The joined text is empty for no pieces and otherwise starts with the first
   piece; pieces free of line feeds give a text with exactly one line feed
   fewer than there are pieces.
   */
  lemma {:induction false} JoinShape(xs: seq<string>)
    ensures xs == [] ==> Join(xs) == ""
    ensures xs != [] ==> xs[0] <= Join(xs)
    ensures xs != [] && (forall k :: 0 <= k < |xs| ==> Newline !in xs[k]) ==>
      multiset(Join(xs))[Newline] == |xs| - 1
    decreases |xs|
  {
    if |xs| > 1 {
      JoinShape(xs[1..]);
      assert (forall k :: 0 <= k < |xs| ==> Newline !in xs[k]) ==>
        forall k :: 0 <= k < |xs| - 1 ==> Newline !in xs[1..][k];
    }
  }

  /** Splitting and joining again gives the text back. */
  lemma {:induction false} JoinSplit(s: string)
    ensures Join(Split(s)) == s
    decreases |s|
  {
    if Newline in s {
      var i := IndexOf(s, Newline);
      var head, tail := s[..i], s[i + 1..];
      assert Split(s) == [head] + Split(tail);
      JoinSplit(tail);
      JoinCons(head, Split(tail));
      assert s == head + [Newline] + tail;
    }
  }

  lemma JoinCons(x: string, xs: seq<string>)
    requires xs != []
    ensures Join([x] + xs) == x + [Newline] + Join(xs)
  {
    assert ([x] + xs)[1..] == xs;
  }

  /** Joining pieces free of line feeds and splitting again gives the pieces back. */
  lemma {:induction false} SplitJoin(xs: seq<string>)
    requires xs != []
    requires forall k :: 0 <= k < |xs| ==> Newline !in xs[k]
    ensures Split(Join(xs)) == xs
    decreases |xs|
  {
    if |xs| > 1 {
      var s := Join(xs);
      assert s == xs[0] + [Newline] + Join(xs[1..]);
      assert s[|xs[0]|] == Newline;
      assert s[..|xs[0]|] == xs[0];
      assert Newline in s;
      var i := IndexOf(s, Newline);
      assert i == |xs[0]|;
      assert s[i + 1..] == Join(xs[1..]);
      SplitJoin(xs[1..]);
    }
  }
}
