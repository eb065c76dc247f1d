/** The Python string built-ins the service applies to résumé and export
    text, over strings as sequences of Unicode code points. */
module PyText {

  // ---------------------------------------------------------------------
  // Whitespace and str.strip()
  // ---------------------------------------------------------------------

  /** The code points for which `c.isspace()` holds, which are those that
      `str.strip()` with no argument removes: ASCII tab to carriage return,
      the four information separators, space, next line (U+0085), and the
      Unicode space, line and paragraph separators. */
  const Whitespace: set<char> :=
    {'\t', '\n', '\U{0B}', '\U{0C}', '\r', '\U{1C}', '\U{1D}', '\U{1E}', '\U{1F}', ' ',
     '\U{85}', '\U{A0}', '\U{1680}', '\U{2000}', '\U{2001}', '\U{2002}', '\U{2003}',
     '\U{2004}', '\U{2005}', '\U{2006}', '\U{2007}', '\U{2008}', '\U{2009}', '\U{200A}',
     '\U{2028}', '\U{2029}', '\U{202F}', '\U{205F}', '\U{3000}'}

  predicate IsSpace(c: char) {
    c in Whitespace
  }

  predicate AllSpace(s: string) {
    forall k | 0 <= k < |s| :: IsSpace(s[k])
  }

  /** The length of the whitespace prefix that `s.lstrip()` removes. */
  function LeadingSpaces(s: string): (n: nat)
    ensures n <= |s|
  {
    if s != [] && IsSpace(s[0]) then LeadingSpaces(s[1..]) + 1 else 0
  }

  /** The prefix is all whitespace and the character after it is not. */
  lemma {:induction false} LeadingSpacesFacts(s: string)
    ensures forall k | 0 <= k < LeadingSpaces(s) :: IsSpace(s[k])
    ensures LeadingSpaces(s) < |s| ==> !IsSpace(s[LeadingSpaces(s)])
  {
    if s != [] && IsSpace(s[0]) {
      LeadingSpacesFacts(s[1..]);
      forall k | 1 <= k < LeadingSpaces(s) ensures IsSpace(s[k]) {
        assert s[k] == s[1..][k - 1];
      }
    }
  }

  /** Where `s.rstrip()` cuts `s`. */
  function TextEnd(s: string): (m: nat)
    ensures m <= |s|
  {
    if s != [] && IsSpace(s[|s| - 1]) then TextEnd(s[..|s| - 1]) else |s|
  }

  /** Everything from the cut on is whitespace, and the character before it
      is not. */
  lemma {:induction false} TextEndFacts(s: string)
    ensures forall k | TextEnd(s) <= k < |s| :: IsSpace(s[k])
    ensures TextEnd(s) > 0 ==> !IsSpace(s[TextEnd(s) - 1])
  {
    if s != [] && IsSpace(s[|s| - 1]) {
      var init := s[..|s| - 1];
      TextEndFacts(init);
      forall k | TextEnd(s) <= k < |s| - 1 ensures IsSpace(s[k]) {
        assert s[k] == init[k];
      }
    }
  }

  /** `s.strip()`: drop the leading whitespace, then the trailing whitespace
      of what is left. */
  function Strip(s: string): (r: string)
    // the result is empty exactly when `s` is all whitespace ...
    ensures r == [] <==> AllSpace(s)
    // ... and otherwise starts and ends with a non-whitespace character
    ensures r != [] ==> !IsSpace(r[0]) && !IsSpace(r[|r| - 1])
  {
    var i := LeadingSpaces(s);
    var m := TextEnd(s[i..]);
    TrimFacts(s, i, m);
    s[i..i + m]
  }

  /** The cut points `strip()` finds: the text between them is empty only
      when all of `s` is whitespace, and otherwise is bounded by
      non-whitespace characters. */
  lemma TrimFacts(s: string, i: nat, m: nat)
    requires i == LeadingSpaces(s) && m == TextEnd(s[i..])
    ensures i + m <= |s|
    ensures m == 0 <==> AllSpace(s)
    ensures m > 0 ==> !IsSpace(s[i]) && !IsSpace(s[i + m - 1])
  {
    var t := s[i..];
    LeadingSpacesFacts(s);
    TextEndFacts(t);
    if i < |s| {
      assert t[0] == s[i];
      assert m > 0;
      assert s[i + m - 1] == t[m - 1];
    }
  }

  /** What `strip()` returns is the slice of `s` that starts after the
      whitespace prefix and is followed only by whitespace. */
  lemma StripIsSlice(s: string)
    ensures var i := LeadingSpaces(s); var r := Strip(s);
      i + |r| <= |s| && r == s[i..i + |r|] &&
      (forall k | i + |r| <= k < |s| :: IsSpace(s[k]))
  {
    var i := LeadingSpaces(s);
    var t := s[i..];
    var m := TextEnd(t);
    TrimFacts(s, i, m);
    TextEndFacts(t);
    assert Strip(s) == s[i..i + m];
    forall k | i + m <= k < |s| ensures IsSpace(s[k]) {
      assert s[k] == t[k - i];
    }
  }

  /** Python truthiness of `s.strip()`: the string has a non-whitespace
      character. */
  predicate HasText(s: string) {
    Strip(s) != []
  }

  lemma HasTextIff(s: string)
    ensures HasText(s) <==> exists k | 0 <= k < |s| :: !IsSpace(s[k])
  {
  }

  /** A string that starts and ends with non-whitespace is already stripped. */
  lemma StripFixesTrimmed(s: string)
    requires s != [] && !IsSpace(s[0]) && !IsSpace(s[|s| - 1])
    ensures Strip(s) == s
  {
    var r := Strip(s);
    StripIsSlice(s);
    assert LeadingSpaces(s) == 0;
    var last := s[|s| - 1];
    assert |r| < |s| ==> IsSpace(last);
    assert s[0..|s|] == s;
  }

  /** Stripping is idempotent. */
  lemma StripIdempotent(s: string)
    ensures Strip(Strip(s)) == Strip(s)
  {
    if Strip(s) != [] {
      StripFixesTrimmed(Strip(s));
    }
  }

  // ---------------------------------------------------------------------
  // str.split("\n") and "\n".join(...)
  // ---------------------------------------------------------------------

  /** The number of newline characters in `s`. */
  function Newlines(s: string): nat {
    multiset(s)['\n']
  }

  /** `s.split("\n")`: the pieces between newline characters. Python never
      returns an empty list here: an empty string splits into `[""]`. */
  function Split(s: string): (r: seq<string>)
    ensures |r| >= 1
  {
    if s == [] then [[]]
    else
      var rest := Split(s[1..]);
      if s[0] == '\n' then [[]] + rest else [[s[0]] + rest[0]] + rest[1..]
  }

  /** There is one more piece than there are newlines, and no piece holds
      a newline. */
  lemma {:induction false} SplitPieces(s: string)
    ensures |Split(s)| == Newlines(s) + 1
    ensures forall i | 0 <= i < |Split(s)| :: '\n' !in Split(s)[i]
  {
    if s != [] {
      var rest := Split(s[1..]);
      SplitPieces(s[1..]);
      assert s == [s[0]] + s[1..];
      assert multiset(s) == multiset([s[0]]) + multiset(s[1..]);
      if s[0] != '\n' {
        var r := [[s[0]] + rest[0]] + rest[1..];
        assert forall i | 1 <= i < |r| :: r[i] == rest[i];
      }
    }
  }

  /** `"\n".join(xs)`. */
  function Join(xs: seq<string>): (r: string)
  {
    if xs == [] then []
    else if |xs| == 1 then xs[0]
    else xs[0] + "\n" + Join(xs[1..])
  }

  /** Gluing a character to the front of the first piece glues it to the
      front of the join. */
  lemma {:induction false} JoinConsFirst(c: char, xs: seq<string>)
    requires |xs| >= 1
    ensures Join([[c] + xs[0]] + xs[1..]) == [c] + Join(xs)
  {
    var ys := [[c] + xs[0]] + xs[1..];
    assert ys[0] == [c] + xs[0];
    if |xs| > 1 {
      assert ys[1..] == xs[1..];
    }
  }

  /** An empty first piece puts a newline in front of the join. */
  lemma JoinEmptyFirst(xs: seq<string>)
    requires |xs| >= 1
    ensures Join([[]] + xs) == "\n" + Join(xs)
  {
    assert ([[]] + xs)[1..] == xs;
  }

  /** Joining the pieces of a split gives back the string. */
  lemma {:induction false} JoinSplit(s: string)
    ensures Join(Split(s)) == s
  {
    if s != [] {
      var rest := Split(s[1..]);
      JoinSplit(s[1..]);
      if s[0] == '\n' {
        assert Split(s) == [[]] + rest;
        JoinEmptyFirst(rest);
      } else {
        assert Split(s) == [[s[0]] + rest[0]] + rest[1..];
        JoinConsFirst(s[0], rest);
      }
      assert s == [s[0]] + s[1..];
    }
  }

  /** Splitting a newline-free prefix glued to `s` extends the first piece. */
  lemma {:induction false} SplitPrefix(a: string, s: string)
    requires '\n' !in a
    ensures Split(a + s) == [a + Split(s)[0]] + Split(s)[1..]
  {
    if a == [] {
      assert a + s == s;
      assert a + Split(s)[0] == Split(s)[0];
      assert [Split(s)[0]] + Split(s)[1..] == Split(s);
    } else {
      assert (a + s)[1..] == a[1..] + s;
      assert '\n' !in a[1..] by {
        forall k | 0 <= k < |a[1..]| ensures a[1..][k] != '\n' { assert a[1..][k] == a[k + 1]; }
      }
      SplitPrefix(a[1..], s);
      assert (a + s)[0] == a[0] && a[0] != '\n';
      assert [a[0]] + (a[1..] + Split(s)[0]) == a + Split(s)[0];
    }
  }

  /** A newline-free string splits into itself alone. */
  lemma SplitNoNewline(x: string)
    requires '\n' !in x
    ensures Split(x) == [x]
  {
    SplitPrefix(x, []);
    assert x + [] == x;
  }

  /** A newline-free piece followed by a newline splits off as one piece. */
  lemma SplitCons(x: string, b: string)
    requires '\n' !in x
    ensures Split(x + "\n" + b) == [x] + Split(b)
  {
    assert x + "\n" + b == x + ("\n" + b);
    SplitPrefix(x, "\n" + b);
    assert ("\n" + b)[1..] == b;
    assert Split("\n" + b) == [[]] + Split(b);
    assert x + [] == x;
  }

  /** Two newlines in a row leave an empty piece between their neighbours. */
  lemma SplitBlankLineBetween(x: string, y: string)
    requires '\n' !in x && '\n' !in y
    ensures Split(x + "\n\n" + y) == [x, [], y]
  {
    assert x + "\n\n" + y == x + "\n" + ([] + "\n" + y);
    SplitCons(x, [] + "\n" + y);
    SplitCons([], y);
    SplitNoNewline(y);
  }

  /** Splitting a join of newline-free pieces gives back the pieces. */
  lemma {:induction false} SplitJoin(xs: seq<string>)
    requires |xs| >= 1
    requires forall i | 0 <= i < |xs| :: '\n' !in xs[i]
    ensures Split(Join(xs)) == xs
  {
    if |xs| == 1 {
      SplitNoNewline(xs[0]);
    } else {
      var tail := xs[1..];
      assert forall i | 0 <= i < |tail| :: tail[i] == xs[i + 1];
      SplitJoin(tail);
      SplitCons(xs[0], Join(tail));
      assert xs == [xs[0]] + tail;
    }
  }

  /** Total newlines held by the pieces themselves. */
  function PieceNewlines(xs: seq<string>): nat {
    if xs == [] then 0 else Newlines(xs[0]) + PieceNewlines(xs[1..])
  }

  /** `"\n".join` of `n >= 1` pieces adds exactly `n - 1` newlines to those
      the pieces already hold. */
  lemma {:induction false} JoinNewlines(xs: seq<string>)
    requires |xs| >= 1
    ensures Newlines(Join(xs)) == PieceNewlines(xs) + |xs| - 1
  {
    assert PieceNewlines(xs) == Newlines(xs[0]) + PieceNewlines(xs[1..]);
    if |xs| == 1 {
      assert PieceNewlines(xs[1..]) == 0;
    } else {
      JoinNewlines(xs[1..]);
      var j := Join(xs[1..]);
      assert multiset(xs[0] + "\n" + j) == multiset(xs[0]) + multiset("\n") + multiset(j);
    }
  }

  /** `"\n".join(xs)` is empty exactly when there is nothing to join or the
      only piece is empty. */
  lemma {:induction false} JoinEmptyIff(xs: seq<string>)
    ensures Join(xs) == [] <==> xs == [] || (|xs| == 1 && xs[0] == [])
  {
    if |xs| > 1 {
      assert |Join(xs)| >= 1;
    }
  }

  // ---------------------------------------------------------------------
  // str.lower() and str.endswith()
  // ---------------------------------------------------------------------

  /** Lower-case one character. Only the ASCII letters are mapped. */
  function LowerChar(c: char): char {
    if 'A' <= c <= 'Z' then (c as int + 32) as char else c
  }

  /** `s.lower()`, restricted to ASCII case mapping. */
  function Lower(s: string): (r: string)
    ensures |r| == |s|
  {
    if s == [] then [] else [LowerChar(s[0])] + Lower(s[1..])
  }

  lemma {:induction false} LowerAt(s: string, k: nat)
    requires k < |s|
    ensures Lower(s)[k] == LowerChar(s[k])
  {
    if k > 0 {
      LowerAt(s[1..], k - 1);
    }
  }

  /** Only a letter's two cases lower to that small letter. */
  lemma LowerCharToLetter(c: char, small: char)
    requires 'a' <= small <= 'z'
    ensures LowerChar(c) == small <==> c == small || c as int == small as int - 32
  {
  }

  /** `s.endswith(suffix)`. */
  predicate EndsWith(s: string, suffix: string) {
    |suffix| <= |s| && s[|s| - |suffix|..] == suffix
  }

  /** Ending with a four-character suffix, character by character. */
  lemma EndsWithFour(s: string, suffix: string)
    requires |suffix| == 4
    ensures EndsWith(s, suffix) <==>
      var n := |s|;
      n >= 4 && s[n - 4] == suffix[0] && s[n - 3] == suffix[1] &&
      s[n - 2] == suffix[2] && s[n - 1] == suffix[3]
  {
    var n := |s|;
    if n >= 4 {
      assert s[n - 4..] == [s[n - 4], s[n - 3], s[n - 2], s[n - 1]];
      assert suffix == [suffix[0], suffix[1], suffix[2], suffix[3]];
    }
  }

  // ---------------------------------------------------------------------
  // str.replace(old, new)
  // ---------------------------------------------------------------------

  predicate OccursAt(s: string, pat: string, i: nat) {
    i + |pat| <= |s| && s[i..i + |pat|] == pat
  }

  predicate Contains(s: string, pat: string) {
    exists i: nat | i <= |s| :: OccursAt(s, pat, i)
  }

  /** `s.replace(pat, rep)` for a non-empty `pat`: scanning from the left,
      every occurrence of `pat` that does not overlap an earlier replaced one
      is replaced by `rep`. A string without `pat` is returned unchanged. */
  function ReplaceAll(s: string, pat: string, rep: string): (r: string)
    requires |pat| > 0
    decreases |s|
  {
    if |s| < |pat| then s
    else if s[..|pat|] == pat then rep + ReplaceAll(s[|pat|..], pat, rep)
    else [s[0]] + ReplaceAll(s[1..], pat, rep)
  }

  /** A string in which `pat` does not occur is returned unchanged. */
  lemma {:induction false} ReplaceAllNoMatch(s: string, pat: string, rep: string)
    requires |pat| > 0 && !Contains(s, pat)
    ensures ReplaceAll(s, pat, rep) == s
    decreases |s|
  {
    if |s| >= |pat| {
      assert !OccursAt(s, pat, 0);
      forall i: nat | i <= |s[1..]| ensures !OccursAt(s[1..], pat, i) {
        assert !OccursAt(s, pat, i + 1);
        if i + |pat| <= |s[1..]| {
          assert s[1..][i..i + |pat|] == s[i + 1..i + 1 + |pat|];
        }
      }
      ReplaceAllNoMatch(s[1..], pat, rep);
      assert s == [s[0]] + s[1..];
    }
  }

  // ---------------------------------------------------------------------
  // s.encode("latin-1", "replace").decode("latin-1")
  // ---------------------------------------------------------------------

  /** A character the Latin-1 codec can encode. */
  predicate IsLatin1Char(c: char) {
    c as int <= 0xFF
  }

  predicate IsLatin1(s: string) {
    forall k | 0 <= k < |s| :: IsLatin1Char(s[k])
  }

  /** The Latin-1 round trip of one character: the "replace" error handler
      substitutes '?' for what the codec cannot encode. */
  function Latin1Char(c: char): char {
    if IsLatin1Char(c) then c else '?'
  }

  /** `s.encode("latin-1", "replace").decode("latin-1")`. */
  function Latin1Replace(s: string): (r: string)
    ensures |r| == |s|
  {
    if s == [] then [] else [Latin1Char(s[0])] + Latin1Replace(s[1..])
  }

  /** Each output character is the input character when Latin-1 can encode
      it, and '?' otherwise. */
  lemma {:induction false} Latin1ReplaceAt(s: string, k: nat)
    requires k < |s|
    ensures Latin1Replace(s)[k] == if s[k] as int <= 0xFF then s[k] else '?'
  {
    if k > 0 {
      Latin1ReplaceAt(s[1..], k - 1);
    }
  }

  /** The result is always encodable, so writing it cannot fail. */
  lemma Latin1ReplaceIsLatin1(s: string)
    ensures IsLatin1(Latin1Replace(s))
  {
    forall k | 0 <= k < |s| ensures IsLatin1Char(Latin1Replace(s)[k]) {
      Latin1ReplaceAt(s, k);
    }
  }

  /** A string is left unchanged exactly when Latin-1 can encode all of it. */
  lemma Latin1ReplaceFixesLatin1(s: string)
    ensures Latin1Replace(s) == s <==> IsLatin1(s)
  {
    forall k | 0 <= k < |s| ensures Latin1Replace(s)[k] == Latin1Char(s[k]) {
      Latin1ReplaceAt(s, k);
    }
    if IsLatin1(s) {
      assert Latin1Replace(s) == s;
    } else {
      var k :| 0 <= k < |s| && !IsLatin1Char(s[k]);
      assert Latin1Replace(s)[k] != s[k];
    }
  }

  /** Replacing twice is the same as replacing once. */
  lemma Latin1ReplaceIdempotent(s: string)
    ensures Latin1Replace(Latin1Replace(s)) == Latin1Replace(s)
  {
    Latin1ReplaceIsLatin1(s);
    Latin1ReplaceFixesLatin1(Latin1Replace(s));
  }
}
