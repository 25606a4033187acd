/** The certificate's name layout: a student's name is broken into one or
    two display lines (src/utils/SplitString.ts). Lengths are counted in
    characters. */
module SplitString {

  /** The characters JavaScript's `String.prototype.trim` removes: the
      WhiteSpace and LineTerminator code points of ECMAScript. */
  predicate IsWhitespace(c: char) {
    c == '\t' || c == '\n' || c == '\U{000B}' || c == '\U{000C}' || c == '\r'
    || c == ' ' || c == '\U{00A0}' || c == '\U{1680}'
    || ('\U{2000}' <= c <= '\U{200A}')
    || c == '\U{2028}' || c == '\U{2029}' || c == '\U{202F}' || c == '\U{205F}'
    || c == '\U{3000}' || c == '\U{FEFF}'
  }

  /** `t` is the piece of `s` from index `a` up to (not including) `b`. */
  predicate PieceAt(t: string, s: string, a: int, b: int) {
    0 <= a <= b <= |s| && t == s[a..b]
  }

  /** `t` is a contiguous piece of `s`. */
  ghost predicate IsSubstring(t: string, s: string) {
    exists a, b :: PieceAt(t, s, a, b)
  }

  /** Number of whitespace characters `s` starts with. */
  function LeadingWhitespace(s: string): (n: nat)
    ensures n <= |s|
    ensures forall k :: 0 <= k < n ==> IsWhitespace(s[k])
    ensures n < |s| ==> !IsWhitespace(s[n])
  {
    if |s| > 0 && IsWhitespace(s[0]) then 1 + LeadingWhitespace(s[1..]) else 0
  }

  /** Number of whitespace characters `s` ends with. */
  function TrailingWhitespace(s: string): (n: nat)
    ensures n <= |s|
    ensures forall k :: |s| - n <= k < |s| ==> IsWhitespace(s[k])
    ensures n < |s| ==> !IsWhitespace(s[|s| - 1 - n])
  {
    if |s| > 0 && IsWhitespace(s[|s| - 1]) then 1 + TrailingWhitespace(s[..|s| - 1]) else 0
  }

  /** `t` is `s` with its leading and trailing whitespace removed: `t`
      stands at some offset `a` of `s`, everything around it is whitespace,
      and `t` neither starts nor ends with whitespace. */
  ghost predicate IsTrimOf(t: string, s: string) {
    && (t == [] || (!IsWhitespace(t[0]) && !IsWhitespace(t[|t| - 1])))
    && exists a :: TrimmedAt(t, s, a)
  }

  /** `t` stands at offset `a` of `s`, with only whitespace around it. */
  predicate TrimmedAt(t: string, s: string, a: int) {
    && PieceAt(t, s, a, a + |t|)
    && (forall k :: 0 <= k < a ==> IsWhitespace(s[k]))
    && (forall k :: a + |t| <= k < |s| ==> IsWhitespace(s[k]))
  }

  /** `String.prototype.trim` */
  function Trim(s: string): (t: string)
    ensures IsTrimOf(t, s)
    ensures |t| <= |s|
  {
    var a := LeadingWhitespace(s);
    var rest := s[a..];
    var t := rest[..|rest| - TrailingWhitespace(rest)];
    assert TrimmedAt(t, s, a);
    t
  }

  /** Trim has exactly one possible result: anything that satisfies the
      description of a trimmed string is the result of Trim. */
  lemma {:induction false} TrimUnique(s: string, t: string)
    requires IsTrimOf(t, s)
    ensures t == Trim(s)
  {
    var a :| TrimmedAt(t, s, a);
    var lead := LeadingWhitespace(s);
    var rest := s[lead..];
    var trail := TrailingWhitespace(rest);
    if t == [] {
      // the whole of s is whitespace, so the leading run is all of it
      assert forall k :: 0 <= k < |s| ==> IsWhitespace(s[k]);
      assert lead == |s|;
    } else {
      assert s[a] == t[0];
      assert lead == a;
      assert rest[|t| - 1] == t[|t| - 1];
      assert forall k :: |t| <= k < |rest| ==> rest[k] == s[a + k];
      assert trail == |rest| - |t|;
      assert rest[..|rest| - trail] == t;
    }
  }

  /** A trimmed string is a contiguous piece of the original. */
  lemma TrimIsSubstring(s: string)
    ensures IsSubstring(Trim(s), s)
  {
    var t := Trim(s);
    var a :| TrimmedAt(t, s, a);
    assert PieceAt(t, s, a, a + |t|);
  }

  /** `String.prototype.lastIndexOf` for a single character: the index of
      the last occurrence of `c` in `s`, or -1 when there is none. */
  function LastIndexOf(s: string, c: char): (i: int)
    ensures -1 <= i < |s|
    ensures i >= 0 ==> s[i] == c
    ensures forall k :: i < k < |s| ==> s[k] != c
  {
    if |s| == 0 then -1
    else if s[|s| - 1] == c then |s| - 1
    else LastIndexOf(s[..|s| - 1], c)
  }

  /** The longest name printed on one line, and the window searched for a
      word boundary when a name is longer. */
  const MaxOneLine: nat := 30
  const BreakWindow: nat := 15

  /** `SplitString`: a name of at most 30 characters is returned whole;
      a longer one is broken at the last space among its first 15
      characters (both halves trimmed) or, when there is none, into its
      first 15 characters and the trimmed text from character 30 on. */
  function SplitString(s: string): (lines: seq<string>)
    ensures |s| <= MaxOneLine ==> lines == [s]
    ensures |s| > MaxOneLine ==> |lines| == 2 && |lines[0]| <= BreakWindow
    ensures forall k :: 0 <= k < |lines| ==> |lines[k]| <= |s|
  {
    if |s| <= MaxOneLine then [s]
    else
      var firstPart := s[..BreakWindow];
      var lastSpaceIndex := LastIndexOf(firstPart, ' ');
      if lastSpaceIndex > -1 then
        [Trim(s[..lastSpaceIndex]), Trim(s[lastSpaceIndex..])]
      else
        [firstPart, Trim(s[MaxOneLine..])]
  }

  /** With a space among the first 15 characters, the name is broken at
      the last such space: both halves are trimmed, and the first line is
      at most 14 characters long because it ends before that space. */
  lemma BreakAtLastSpace(s: string, i: nat)
    requires |s| > MaxOneLine
    requires i < BreakWindow && s[i] == ' '
    requires forall k :: i < k < BreakWindow ==> s[k] != ' '
    ensures SplitString(s) == [Trim(s[..i]), Trim(s[i..])]
    ensures |SplitString(s)[0]| <= i <= BreakWindow - 1
  {
    var j := LastIndexOf(s[..BreakWindow], ' ');
    assert s[..BreakWindow][i] == ' ';
    assert j == i;
    TrimIsSubstring(s[..i]);
  }

  /** Without a space among the first 15 characters, the first line is
      exactly those 15 characters, untrimmed, and the second is the
      trimmed text from character 30 on: characters 15 to 29 appear on
      neither line. */
  lemma HardBreak(s: string)
    requires |s| > MaxOneLine
    requires forall k :: 0 <= k < BreakWindow ==> s[k] != ' '
    ensures SplitString(s) == [s[..BreakWindow], Trim(s[MaxOneLine..])]
    ensures |SplitString(s)[0]| == BreakWindow
    ensures IsSubstring(SplitString(s)[1], s[MaxOneLine..])
  {
    var firstPart := s[..BreakWindow];
    assert forall k :: 0 <= k < |firstPart| ==> firstPart[k] != ' ';
    var j := LastIndexOf(firstPart, ' ');
    assert j == -1;
    assert SplitString(s) == [firstPart, Trim(s[MaxOneLine..])];
    TrimIsSubstring(s[MaxOneLine..]);
  }

  /** Every returned line is a contiguous piece of the name. */
  lemma LinesAreSubstrings(s: string)
    ensures forall line :: line in SplitString(s) ==> IsSubstring(line, s)
  {
    if |s| <= MaxOneLine {
      assert PieceAt(s, s, 0, |s|);
    } else {
      var j := LastIndexOf(s[..BreakWindow], ' ');
      if j > -1 {
        assert SplitString(s) == [Trim(s[..j]), Trim(s[j..])];
        TrimOfPrefix(s, j);
        TrimOfSuffix(s, j);
      } else {
        assert PieceAt(s[..BreakWindow], s, 0, BreakWindow);
        TrimOfSuffix(s, MaxOneLine);
      }
    }
  }

  /** The trim of a prefix of `s` is a piece of `s`. */
  lemma TrimOfPrefix(s: string, hi: nat)
    requires hi <= |s|
    ensures IsSubstring(Trim(s[..hi]), s)
  {
    TrimIsSubstring(s[..hi]);
    var a, b :| PieceAt(Trim(s[..hi]), s[..hi], a, b);
    assert PieceAt(Trim(s[..hi]), s, a, b);
  }

  /** The trim of a suffix of `s` is a piece of `s`. */
  lemma TrimOfSuffix(s: string, lo: nat)
    requires lo <= |s|
    ensures IsSubstring(Trim(s[lo..]), s)
  {
    TrimIsSubstring(s[lo..]);
    var a, b :| PieceAt(Trim(s[lo..]), s[lo..], a, b);
    assert PieceAt(Trim(s[lo..]), s, lo + a, lo + b);
  }
}
