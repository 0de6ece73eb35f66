/** The two `String.prototype` operations the cookie parser relies on,
    `trim()` and `split(c)` with a one-character separator, over `seq<char>`. */
module JsString {

  /** The characters `trim()` removes: ECMAScript WhiteSpace (tab, vertical
      tab, form feed, space, no-break space, byte order mark and the Unicode
      space separators) and LineTerminator (LF, CR, line and paragraph
      separators). */
  predicate IsWhitespace(c: char) {
    || c == ' ' || c == '\t' || c == '\n' || c == '\r'
    || c == '\U{000B}' || c == '\U{000C}' || c == '\U{00A0}' || c == '\U{FEFF}'
    || c == '\U{1680}' || ('\U{2000}' <= c <= '\U{200A}')
    || c == '\U{2028}' || c == '\U{2029}' || c == '\U{202F}' || c == '\U{205F}'
    || c == '\U{3000}'
  }

  /** Every character of `s` is whitespace. */
  predicate AllWhitespace(s: string) {
    forall i :: 0 <= i < |s| ==> IsWhitespace(s[i])
  }

  /** Neither end of `s` is whitespace. */
  predicate IsTrimmed(s: string) {
    |s| == 0 || (!IsWhitespace(s[0]) && !IsWhitespace(s[|s| - 1]))
  }

  /** Length of the longest all-whitespace prefix of `s`. */
  function LeadingWhitespace(s: string): (n: nat)
    ensures n <= |s|
    ensures forall i :: 0 <= i < n ==> IsWhitespace(s[i])
    ensures n < |s| ==> !IsWhitespace(s[n])
  {
    if |s| > 0 && IsWhitespace(s[0]) then 1 + LeadingWhitespace(s[1..]) else 0
  }

  /** Length of the longest all-whitespace suffix of `s`. */
  function TrailingWhitespace(s: string): (n: nat)
    ensures n <= |s|
    ensures forall i :: |s| - n <= i < |s| ==> IsWhitespace(s[i])
    ensures n < |s| ==> !IsWhitespace(s[|s| - 1 - n])
  {
    if |s| > 0 && IsWhitespace(s[|s| - 1]) then 1 + TrailingWhitespace(s[..|s| - 1]) else 0
  }

  /** `s` without its leading whitespace. */
  function TrimStart(s: string): (r: string)
    ensures r == [] || !IsWhitespace(r[0])
  {
    s[LeadingWhitespace(s)..]
  }

  /** `s` without its trailing whitespace. */
  function TrimEnd(s: string): (r: string)
    ensures r == [] || !IsWhitespace(r[|r| - 1])
  {
    s[..|s| - TrailingWhitespace(s)]
  }

  /** `s.trim()`: `s` without its leading and its trailing whitespace. */
  function Trim(s: string): (r: string)
    ensures IsTrimmed(r)
  {
    TrimEnd(TrimStart(s))
  }

  /** `trim()` leaves a string without surrounding whitespace unchanged. */
  lemma TrimTrimmed(s: string)
    requires IsTrimmed(s)
    ensures Trim(s) == s
  {
    assert s[0..] == s;
  }

  /** `trim()` is idempotent. */
  lemma TrimIdempotent(s: string)
    ensures Trim(Trim(s)) == Trim(s)
  {
    TrimTrimmed(Trim(s));
  }

  /** Each of `trimStart`, `trimEnd` and `trim` gives the empty string
      exactly for an all-whitespace input. */
  lemma TrimEmptyIffBlank(s: string)
    ensures TrimStart(s) == [] <==> AllWhitespace(s)
    ensures TrimEnd(s) == [] <==> AllWhitespace(s)
    ensures Trim(s) == [] <==> AllWhitespace(s)
  {
    if TrimStart(s) != [] {
      assert !IsWhitespace(s[LeadingWhitespace(s)]);
      assert s[LeadingWhitespace(s)] == TrimStart(s)[0];
    }
  }

  /** `trim()` of a non-empty trimmed core padded with whitespace on both
      sides gives the core: the result is the input with exactly its
      leading and trailing whitespace removed. */
  lemma TrimPadded(a: string, core: string, b: string)
    requires AllWhitespace(a) && AllWhitespace(b) && IsTrimmed(core)
    ensures Trim(a + core + b) == core
  {
    if core == [] {
      assert AllWhitespace(a + core + b) by {
        assert a + core + b == a + b;
      }
      TrimEmptyIffBlank(a + core + b);
    } else {
      assert a + core + b == a + (core + b);
      TrimStartPadded(a, core + b);
      TrimEndPadded(core, b);
    }
  }

  /** Whitespace in front of a text starting with non-whitespace is what
      `trimStart` removes. */
  lemma TrimStartPadded(a: string, y: string)
    requires AllWhitespace(a) && y != [] && !IsWhitespace(y[0])
    ensures TrimStart(a + y) == y
  {
    TrimEmptyIffBlank(a);
    assert a + y == a + [y[0]] + y[1..];
    TrimStartAround(a, y[0], y[1..]);
  }

  /** Whitespace behind a text ending with non-whitespace is what
      `trimEnd` removes. */
  lemma TrimEndPadded(x: string, b: string)
    requires AllWhitespace(b) && x != [] && !IsWhitespace(x[|x| - 1])
    ensures TrimEnd(x + b) == x
  {
    TrimEmptyIffBlank(b);
    assert x + b == x[..|x| - 1] + [x[|x| - 1]] + b;
    TrimEndAround(x[..|x| - 1], x[|x| - 1], b);
  }

  /** Every string is its trimmed text with whitespace before and after. */
  lemma TrimSplitsPadding(s: string)
    ensures exists a, b :: AllWhitespace(a) && AllWhitespace(b) && s == a + Trim(s) + b
  {
    var m := TrimStart(s);
    var a, b := LeadingPad(s), TrailingPad(m);
    assert Trim(s) == TrimEnd(m);
    ConcatAssoc(a, TrimEnd(m), b);
    assert s == a + Trim(s) + b;
  }

  /** The whitespace `trimStart` removes from `s`. */
  function LeadingPad(s: string): (a: string)
    ensures AllWhitespace(a)
    ensures s == a + TrimStart(s)
  {
    s[..LeadingWhitespace(s)]
  }

  /** The whitespace `trimEnd` removes from `s`. */
  function TrailingPad(s: string): (b: string)
    ensures AllWhitespace(b)
    ensures s == TrimEnd(s) + b
  {
    var n := |s| - TrailingWhitespace(s);
    assert s == s[..n] + s[n..];
    assert forall i :: 0 <= i < |s| - n ==> s[n..][i] == s[n + i];
    s[n..]
  }

  /** Trimming the front first does not change `trim()`. */
  lemma TrimStartThenTrim(s: string)
    ensures Trim(TrimStart(s)) == Trim(s)
  {
    TrimStartNoop(TrimStart(s));
  }

  /** Trimming the back first does not change `trim()`. */
  lemma TrimEndThenTrim(s: string)
    ensures Trim(TrimEnd(s)) == Trim(s)
  {
    TrimSplitsPadding(s);
    var a, b :| AllWhitespace(a) && AllWhitespace(b) && s == a + Trim(s) + b;
    var core := Trim(s);
    if core == [] {
      assert AllWhitespace(s) by {
        assert s == a + b;
      }
      TrimEmptyIffBlank(s);
    } else {
      assert s == (a + core) + b;
      TrimEndPadded(a + core, b);
      TrimPadded(a, core, []);
      assert a + core + [] == a + core;
    }
  }

  /** Whitespace counting at the front stops at a non-whitespace character. */
  lemma {:induction false} LeadingWhitespaceStops(x: string, c: char, y: string)
    requires !IsWhitespace(c)
    ensures LeadingWhitespace(x + [c] + y) == LeadingWhitespace(x)
    decreases |x|
  {
    if |x| > 0 {
      assert (x + [c] + y)[1..] == x[1..] + [c] + y;
      LeadingWhitespaceStops(x[1..], c, y);
    }
  }

  /** Whitespace counting at the back stops at a non-whitespace character. */
  lemma {:induction false} TrailingWhitespaceStops(x: string, c: char, y: string)
    requires !IsWhitespace(c)
    ensures TrailingWhitespace(x + [c] + y) == TrailingWhitespace(y)
    decreases |y|
  {
    var s := x + [c] + y;
    if |y| > 0 {
      assert s[..|s| - 1] == x + [c] + y[..|y| - 1];
      TrailingWhitespaceStops(x, c, y[..|y| - 1]);
    }
  }

  /** Trimming a string with a non-whitespace character `c` inside trims the
      text before `c` only at its front and the text after `c` only at its
      back. */
  lemma TrimAround(x: string, c: char, y: string)
    requires !IsWhitespace(c)
    ensures Trim(x + [c] + y) == TrimStart(x) + [c] + TrimEnd(y)
  {
    TrimStartAround(x, c, y);
    TrimEndAround(TrimStart(x), c, y);
  }

  /** The front half of `TrimAround`. */
  lemma TrimStartAround(x: string, c: char, y: string)
    requires !IsWhitespace(c)
    ensures TrimStart(x + [c] + y) == TrimStart(x) + [c] + y
  {
    LeadingWhitespaceStops(x, c, y);
    assert (x + [c] + y)[LeadingWhitespace(x)..] == x[LeadingWhitespace(x)..] + [c] + y;
  }

  /** The back half of `TrimAround`. */
  lemma TrimEndAround(x: string, c: char, y: string)
    requires !IsWhitespace(c)
    ensures TrimEnd(x + [c] + y) == x + [c] + TrimEnd(y)
  {
    TrailingWhitespaceStops(x, c, y);
    TrimEndKeepsFront(x + [c], y);
  }

  /** A string starting with a non-whitespace character has nothing to trim
      at the front. */
  lemma TrimStartNoop(s: string)
    requires s == [] || !IsWhitespace(s[0])
    ensures TrimStart(s) == s
  {
    assert s[0..] == s;
  }

  /** When the trailing whitespace lies in `y`, trimming the end of `a + y`
      trims only `y`. */
  lemma TrimEndKeepsFront(a: string, y: string)
    requires TrailingWhitespace(a + y) == TrailingWhitespace(y)
    ensures TrimEnd(a + y) == a + TrimEnd(y)
  {
    PrefixOfConcat(a, y, |y| - TrailingWhitespace(y));
  }

  /** A prefix reaching into the second half of a concatenation. */
  lemma PrefixOfConcat(a: string, b: string, k: nat)
    requires k <= |b|
    ensures (a + b)[..|a| + k] == a + b[..k]
  {
  }

  /** A whitespace character in front does not change the trimmed text. */
  lemma TrimSkipsWhitespace(c: char, y: string)
    requires IsWhitespace(c)
    ensures Trim([c] + y) == Trim(y)
  {
    assert ([c] + y)[1..] == y;
    assert ([c] + y)[1 + LeadingWhitespace(y)..] == y[LeadingWhitespace(y)..];
  }

  /** Whitespace in front does not change the trimmed text. */
  lemma {:induction false} TrimSkipsPadding(pad: string, y: string)
    requires AllWhitespace(pad)
    ensures Trim(pad + y) == Trim(y)
    decreases |pad|
  {
    if |pad| == 0 {
      assert pad + y == y;
    } else {
      assert pad + y == [pad[0]] + (pad[1..] + y);
      TrimSkipsPadding(pad[1..], y);
      TrimSkipsWhitespace(pad[0], pad[1..] + y);
    }
  }

  /** Concatenation is associative. */
  lemma ConcatAssoc(a: string, b: string, c: string)
    ensures a + b + c == a + (b + c)
  {
  }

  /** Joins `parts` with `sep` between neighbours: the inverse of `Split`. */
  function Join(parts: seq<string>, sep: char): string
    requires |parts| >= 1
  {
    if |parts| == 1 then parts[0] else parts[0] + [sep] + Join(parts[1..], sep)
  }

  /** `s.split(sep)` for a one-character separator: the maximal runs of
      `s` between occurrences of `sep`, including empty runs at the ends and
      between adjacent separators; never an empty list. */
  function Split(s: string, sep: char): (parts: seq<string>)
    ensures |parts| >= 1
    ensures forall i :: 0 <= i < |parts| ==> sep !in parts[i]
  {
    if |s| == 0 then [""]
    else
      var rest := Split(s[1..], sep);
      if s[0] == sep then [""] + rest
      else [[s[0]] + rest[0]] + rest[1..]
  }

  /** Joining the pieces of a split gives the string back. */
  lemma {:induction false} JoinSplit(s: string, sep: char)
    ensures Join(Split(s, sep), sep) == s
    decreases |s|
  {
    if |s| > 0 {
      JoinSplit(s[1..], sep);
      var rest := Split(s[1..], sep);
      var parts := Split(s, sep);
      if s[0] == sep {
        assert parts[1..] == rest;
      } else {
        assert parts[1..] == rest[1..];
      }
    }
  }

  /** A string without the separator splits into itself. */
  lemma {:induction false} SplitNoSeparator(x: string, sep: char)
    requires sep !in x
    ensures Split(x, sep) == [x]
    decreases |x|
  {
    if |x| > 0 {
      SplitNoSeparator(x[1..], sep);
      assert [x[0]] + x[1..] == x;
    }
  }

  /** Splitting stops at the first separator: the first piece is the text
      before it, the rest is the split of the text after it. */
  lemma {:induction false} SplitFirst(x: string, sep: char, y: string)
    requires sep !in x
    ensures Split(x + [sep] + y, sep) == [x] + Split(y, sep)
    decreases |x|
  {
    var s := x + [sep] + y;
    if |x| > 0 {
      assert s[1..] == x[1..] + [sep] + y;
      SplitFirst(x[1..], sep, y);
      var rest := Split(s[1..], sep);
      assert rest[1..] == Split(y, sep);
      assert [s[0]] + rest[0] == x;
    } else {
      assert s[1..] == y;
    }
  }

  /** Splitting a join of separator-free pieces gives the pieces back. */
  lemma {:induction false} SplitJoin(parts: seq<string>, sep: char)
    requires |parts| >= 1
    requires forall i :: 0 <= i < |parts| ==> sep !in parts[i]
    ensures Split(Join(parts, sep), sep) == parts
    decreases |parts|
  {
    if |parts| == 1 {
      SplitNoSeparator(parts[0], sep);
    } else {
      SplitJoin(parts[1..], sep);
      SplitFirst(parts[0], sep, Join(parts[1..], sep));
      assert [parts[0]] + parts[1..] == parts;
    }
  }

  /** Every piece of a join occurs in it, so a character absent from the
      joined string is absent from every piece. */
  lemma {:induction false} JoinKeepsPieces(parts: seq<string>, sep: char, c: char, k: nat)
    requires |parts| >= 1
    requires k < |parts|
    requires c !in Join(parts, sep)
    ensures c !in parts[k]
    decreases |parts|
  {
    if |parts| > 1 && k > 0 {
      JoinKeepsPieces(parts[1..], sep, c, k - 1);
    }
  }

  /** Trimming either end never introduces a character. */
  lemma TrimEndsKeepAbsence(s: string, c: char)
    requires c !in s
    ensures c !in TrimStart(s) && c !in TrimEnd(s)
  {
  }

  /** Trimming never introduces a character. */
  lemma TrimKeepsAbsence(s: string, c: char)
    requires c !in s
    ensures c !in Trim(s)
  {
  }
}
