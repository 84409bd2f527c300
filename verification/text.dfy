/**
 * The string primitives the CSV transfer is built from: Kotlin's `trim()` and
 * `split(",")`, and the line framing of `BufferedWriter.newLine()` and
 * `BufferedReader.readLine()`.
 */
module Text {

  /** Kotlin's `Char.isWhitespace()` on the JVM, i.e. `Character.isWhitespace(c) ||
      Character.isSpaceChar(c)`, written out as the code points it accepts. */
  predicate IsWhitespace(c: char) {
    || ('\t' <= c <= '\r')                      // U+0009 .. U+000D
    || ('\U{1C}' <= c <= '\U{1F}')              // information separators
    || c == ' '
    || c == '\U{A0}'
    || c == '\U{1680}'
    || ('\U{2000}' <= c <= '\U{200A}')
    || c == '\U{2028}' || c == '\U{2029}'
    || c == '\U{202F}' || c == '\U{205F}' || c == '\U{3000}'
  }

  /** `s` neither starts nor ends with whitespace. */
  predicate Trimmed(s: string) {
    |s| == 0 || (!IsWhitespace(s[0]) && !IsWhitespace(s[|s| - 1]))
  }

  /** Length of the longest whitespace prefix of `s`: how far `trim()`'s start
      index advances. */
  function LeadingSpace(s: string): (n: nat)
    ensures n <= |s|
    ensures forall k :: 0 <= k < n ==> IsWhitespace(s[k])
    ensures n < |s| ==> !IsWhitespace(s[n])
  {
    if |s| > 0 && IsWhitespace(s[0]) then 1 + LeadingSpace(s[1..]) else 0
  }

  /** Length of the longest whitespace suffix of `s`: how far `trim()`'s end
      index retreats. */
  function TrailingSpace(s: string): (n: nat)
    ensures n <= |s|
    ensures forall k :: |s| - n <= k < |s| ==> IsWhitespace(s[k])
    ensures n < |s| ==> !IsWhitespace(s[|s| - 1 - n])
  {
    if |s| > 0 && IsWhitespace(s[|s| - 1]) then 1 + TrailingSpace(s[..|s| - 1]) else 0
  }

  /** Kotlin's `String.trim()`: the result is the slice of `s` left after removing
      whitespace from both ends, it has no whitespace at either end, and a string
      that already has none is returned unchanged. */
  function Trim(s: string): (r: string)
    ensures Trimmed(r)
    ensures LeadingSpace(s) + |r| <= |s|
    ensures r == s[LeadingSpace(s)..LeadingSpace(s) + |r|]
    ensures forall k :: 0 <= k < LeadingSpace(s) ==> IsWhitespace(s[k])
    ensures forall k :: LeadingSpace(s) + |r| <= k < |s| ==> IsWhitespace(s[k])
    ensures Trimmed(s) ==> r == s
  {
    var i := LeadingSpace(s);
    if i == |s| then ""
    else
      var t := TrailingSpace(s);
      assert !IsWhitespace(s[i]);
      assert i < |s| - t;
      s[i..|s| - t]
  }

  /** Number of occurrences of `d` in `s`. */
  function Occurrences(s: string, d: char): nat
  {
    if |s| == 0 then 0 else (if s[0] == d then 1 else 0) + Occurrences(s[1..], d)
  }

  /** The pieces of `parts` glued with the separator `d`. */
  function Join(parts: seq<string>, d: char): string
  {
    if |parts| == 0 then ""
    else if |parts| == 1 then parts[0]
    else parts[0] + [d] + Join(parts[1..], d)
  }

  /** Kotlin's `CharSequence.split(d)` for a one-character delimiter and no limit:
      every piece between delimiters, empty pieces (including trailing ones) kept.
      There is one more piece than there are delimiters, no piece contains the
      delimiter, and gluing the pieces back gives `s`. */
  function Split(s: string, d: char): (r: seq<string>)
    ensures |r| == Occurrences(s, d) + 1
    ensures forall i :: 0 <= i < |r| ==> d !in r[i]
    ensures Join(r, d) == s
    decreases |s|
  {
    if |s| == 0 then [""]
    else
      var rest := Split(s[1..], d);
      if s[0] == d then
        assert s == [d] + Join(rest, d);
        [""] + rest
      else
        var r := [[s[0]] + rest[0]] + rest[1..];
        assert Join(r, d) == [s[0]] + Join(rest, d) by {
          if |rest| > 1 {
            assert rest == [rest[0]] + rest[1..];
          }
        }
        assert s == [s[0]] + s[1..];
        r
  }

  /** A string without the delimiter is a single piece. */
  lemma {:induction false} SplitSingle(x: string, d: char)
    requires d !in x
    ensures Split(x, d) == [x]
    decreases |x|
  {
    if |x| > 0 {
      assert d !in x[1..];
      SplitSingle(x[1..], d);
      assert [x[0]] + x[1..] == x;
    }
  }

  /** A delimiter-free prefix followed by the delimiter splits off as the first piece. */
  lemma {:induction false} SplitAfterPiece(x: string, d: char, y: string)
    requires d !in x
    ensures Split(x + [d] + y, d) == [x] + Split(y, d)
    decreases |x|
  {
    var s := x + [d] + y;
    if |x| == 0 {
      assert s == [d] + y;
      assert s[1..] == y;
    } else {
      assert s[1..] == x[1..] + [d] + y;
      assert d !in x[1..];
      SplitAfterPiece(x[1..], d, y);
      assert [x[0]] + x[1..] == x;
    }
  }

  /** Splitting undoes joining when no piece contains the delimiter. */
  lemma {:induction false} SplitJoin(parts: seq<string>, d: char)
    requires |parts| >= 1
    requires forall i :: 0 <= i < |parts| ==> d !in parts[i]
    ensures Split(Join(parts, d), d) == parts
    decreases |parts|
  {
    if |parts| == 1 {
      SplitSingle(parts[0], d);
    } else {
      SplitAfterPiece(parts[0], d, Join(parts[1..], d));
      SplitJoin(parts[1..], d);
      assert parts == [parts[0]] + parts[1..];
    }
  }

  /** The characters at which `BufferedReader.readLine()` ends a line. */
  predicate IsLineBreak(c: char) {
    c == '\n' || c == '\r'
  }

  /** `s` contains no line break. */
  predicate SingleLine(s: string) {
    forall i :: 0 <= i < |s| ==> !IsLineBreak(s[i])
  }

  /** Index of the first line break in `t`, or `|t|` when there is none. */
  function LineEnd(t: string): (i: nat)
    ensures i <= |t|
    ensures SingleLine(t[..i])
    ensures i < |t| ==> IsLineBreak(t[i])
  {
    if |t| == 0 || IsLineBreak(t[0]) then 0 else 1 + LineEnd(t[1..])
  }

  /** The successive non-null results of `BufferedReader.readLine()` on the text `t`:
      a line ends at "\n", "\r" or "\r\n", the terminator is not part of the line,
      and a final line without terminator is still returned. */
  function ReadLines(t: string): (r: seq<string>)
    ensures forall k :: 0 <= k < |r| ==> SingleLine(r[k])
    ensures |t| == 0 <==> |r| == 0
    decreases |t|
  {
    if |t| == 0 then []
    else
      var i := LineEnd(t);
      if i == |t| then
        assert t[..i] == t;
        [t]
      else if t[i] == '\r' && i + 1 < |t| && t[i + 1] == '\n' then
        [t[..i]] + ReadLines(t[i + 2..])
      else
        [t[..i]] + ReadLines(t[i + 1..])
  }

  /** The text written by `write(line); newLine()` for each line in turn, with
      Android's line separator "\n". */
  function WriteLines(lines: seq<string>): string
  {
    if |lines| == 0 then "" else lines[0] + "\n" + WriteLines(lines[1..])
  }

  /** Reading back written lines gives the same lines, provided none of them
      contains a line break. */
  lemma {:induction false} ReadWriteLines(lines: seq<string>)
    requires forall k :: 0 <= k < |lines| ==> SingleLine(lines[k])
    ensures ReadLines(WriteLines(lines)) == lines
    decreases |lines|
  {
    if |lines| > 0 {
      var l, rest := lines[0], WriteLines(lines[1..]);
      assert ReadLines(WriteLines(lines)) == [l] + ReadLines(rest) by {
        assert WriteLines(lines) == l + "\n" + rest;
        ReadLinesCons(l, rest);
      }
      assert ReadLines(rest) == lines[1..] by {
        ReadWriteLines(lines[1..]);
      }
      assert lines == [l] + lines[1..];
    }
  }

  /** A line followed by "\n" ends exactly at its own length. */
  lemma {:induction false} LineEndOfLine(l: string, rest: string)
    requires SingleLine(l)
    ensures LineEnd(l + "\n" + rest) == |l|
    decreases |l|
  {
    var t := l + "\n" + rest;
    if |l| > 0 {
      assert t[1..] == l[1..] + "\n" + rest;
      LineEndOfLine(l[1..], rest);
    }
  }

  /** A line without a break ends at the end of the text. */
  lemma {:induction false} LineEndOfSingle(l: string)
    requires SingleLine(l)
    ensures LineEnd(l) == |l|
    decreases |l|
  {
    if |l| > 0 {
      assert SingleLine(l[1..]);
      LineEndOfSingle(l[1..]);
    }
  }

  /** A final line with no terminator is still read. */
  lemma UnterminatedLastLine(l: string)
    requires SingleLine(l) && |l| > 0
    ensures ReadLines(l) == [l]
  {
    LineEndOfSingle(l);
  }

  /** A line followed by "\n" is read as that line, then the rest. */
  lemma ReadLinesCons(h: string, rest: string)
    requires SingleLine(h)
    ensures ReadLines(h + "\n" + rest) == [h] + ReadLines(rest)
  {
    var t := h + "\n" + rest;
    LineEndOfLine(h, rest);
    assert t[..|h|] == h;
    assert t[|h| + 1..] == rest;
  }

  /** A line break inside a written line splits it in two when read back: a
      field holding "\n" between two break-free parts is read as those two parts. */
  lemma BreakSplitsLine(a: string, b: string)
    requires SingleLine(a) && SingleLine(b)
    ensures ReadLines(WriteLines([a + "\n" + b])) == [a, b]
  {
    assert WriteLines([a + "\n" + b]) == a + "\n" + (b + "\n" + "");
    ReadLinesCons(b, "");
    ReadLinesCons(a, b + "\n" + "");
  }
}
