/**
 * The Python 2 string and text-file behaviour the word-vector loader relies on:
 * `str.strip()`, `str.split(' ')`, iterating over the lines of a file, and
 * `seek(offset)` followed by `readline()`. A file is modelled by its contents,
 * one `char` per byte.
 */
module Text {

  /** The characters Python 2's `str.strip()` removes when given no argument. */
  predicate IsSpace(c: char) {
    c == ' ' || c == '\t' || c == '\n' || c == '\r' || c == '\U{000B}' || c == '\U{000C}'
  }

  // ---------------------------------------------------------------------------
  // str.strip()
  // ---------------------------------------------------------------------------

  /** Number of whitespace characters `s` starts with. */
  function LeadingSpace(s: string): (n: nat)
    ensures n <= |s|
    ensures forall k :: 0 <= k < n ==> IsSpace(s[k])
    ensures n < |s| ==> !IsSpace(s[n])
  {
    if s != [] && IsSpace(s[0]) then 1 + LeadingSpace(s[1..]) else 0
  }

  /** `s` without its trailing whitespace: a prefix of `s`. */
  function StripEnd(s: string): (r: string)
    ensures |r| <= |s| && r == s[..|r|]
    ensures forall k :: |r| <= k < |s| ==> IsSpace(s[k])
    ensures r != [] ==> !IsSpace(r[|r| - 1])
  {
    if s != [] && IsSpace(s[|s| - 1]) then StripEnd(s[..|s| - 1]) else s
  }

  /**
   * `s.strip()`: the slice of `s` that starts after its leading whitespace and
   * leaves only whitespace after it; it neither starts nor ends with whitespace.
   */
  function Strip(s: string): (r: string)
    ensures LeadingSpace(s) + |r| <= |s|
    ensures r == s[LeadingSpace(s)..LeadingSpace(s) + |r|]
    ensures forall k :: LeadingSpace(s) + |r| <= k < |s| ==> IsSpace(s[k])
    ensures r != [] ==> !IsSpace(r[0]) && !IsSpace(r[|r| - 1])
  {
    var n := LeadingSpace(s);
    var t := s[n..];
    var r := StripEnd(t);
    assert t[..|r|] == s[n..n + |r|];
    forall k | n + |r| <= k < |s|
      ensures IsSpace(s[k])
    {
      assert s[k] == t[k - n];
    }
    assert r != [] ==> r[0] == s[n];
    r
  }

  /** Stripping twice strips nothing more: a stripped word is its own `strip()`. */
  lemma StripIdempotent(s: string)
    ensures Strip(Strip(s)) == Strip(s)
  {
  }

  // ---------------------------------------------------------------------------
  // str.split(' ')
  // ---------------------------------------------------------------------------

  /** Number of occurrences of `c` in `s`. */
  function Occurrences(s: string, c: char): nat {
    if s == [] then 0 else (if s[0] == c then 1 else 0) + Occurrences(s[1..], c)
  }

  /** `sep.join(tokens)`. */
  function Join(tokens: seq<string>, sep: char): string
    requires |tokens| >= 1
  {
    if |tokens| == 1 then tokens[0] else tokens[0] + [sep] + Join(tokens[1..], sep)
  }

  /**
   * `s.split(sep)` with an explicit one-character separator: one token more than
   * there are separators (empty tokens included, so `"".split(' ') == ['']`), no
   * token contains the separator, and joining the tokens gives back `s`.
   */
  function Split(s: string, sep: char): (tokens: seq<string>)
    ensures |tokens| == Occurrences(s, sep) + 1
    ensures forall i :: 0 <= i < |tokens| ==> sep !in tokens[i]
    ensures Join(tokens, sep) == s
  {
    if s == [] then [[]]
    else
      var rest := Split(s[1..], sep);
      if s[0] == sep then
        assert ([[]] + rest)[1..] == rest;
        [[]] + rest
      else
        var tokens := [[s[0]] + rest[0]] + rest[1..];
        assert |rest| > 1 ==> tokens[1..] == rest[1..] && Join(rest, sep) == rest[0] + [sep] + Join(rest[1..], sep);
        assert s == [s[0]] + s[1..];
        tokens
  }

  /** Splitting `a + b`, where `a` holds no separator, glues `a` to the first token of `b`. */
  lemma {:induction false} SplitPrefix(a: string, b: string, sep: char)
    requires sep !in a
    ensures Split(a + b, sep) == [a + Split(b, sep)[0]] + Split(b, sep)[1..]
  {
    if a != [] {
      assert (a + b)[1..] == a[1..] + b;
      assert (a + b)[0] == a[0];
      SplitPrefix(a[1..], b, sep);
      assert [a[0]] + (a[1..] + Split(b, sep)[0]) == a + Split(b, sep)[0];
    } else {
      var tokens := Split(b, sep);
      assert a + b == b && a + tokens[0] == tokens[0];
      assert [tokens[0]] + tokens[1..] == tokens;
    }
  }

  /** The other half of the round trip: tokens free of the separator survive `Join` then `Split`. */
  lemma {:induction false} SplitJoin(tokens: seq<string>, sep: char)
    requires |tokens| >= 1
    requires forall i :: 0 <= i < |tokens| ==> sep !in tokens[i]
    ensures Split(Join(tokens, sep), sep) == tokens
  {
    if |tokens| == 1 {
      SplitPrefix(tokens[0], [], sep);
      assert tokens[0] + [] == tokens[0];
    } else {
      var rest := Join(tokens[1..], sep);
      SplitJoin(tokens[1..], sep);
      assert [sep] + rest != [] && ([sep] + rest)[0] == sep && ([sep] + rest)[1..] == rest;
      assert Split([sep] + rest, sep) == [[]] + tokens[1..];
      assert tokens[0] + [sep] + rest == tokens[0] + ([sep] + rest);
      SplitPrefix(tokens[0], [sep] + rest, sep);
      assert tokens[0] + [] == tokens[0];
    }
  }

  // ---------------------------------------------------------------------------
  // Lines of a file, offsets, seek + readline
  // ---------------------------------------------------------------------------

  /** The concatenation of `lines`, i.e. the file they were read from. */
  function Concat(lines: seq<string>): string {
    if lines == [] then [] else lines[0] + Concat(lines[1..])
  }

  /**
   * Length of the line at the head of `t`, its terminating '\n' included: no '\n'
   * before its last character, which is '\n' unless the line runs to the end of `t`.
   */
  function LineLength(t: string): (n: nat)
    ensures n <= |t|
    ensures t != [] ==> 1 <= n
    ensures forall k :: 0 <= k < n - 1 ==> t[k] != '\n'
    ensures n < |t| ==> t[n - 1] == '\n'
  {
    if t == [] then 0 else if t[0] == '\n' then 1 else 1 + LineLength(t[1..])
  }

  /** Predicate shared by all lines a file yields: non-empty, '\n' at most at the end. */
  predicate IsLine(line: string) {
    line != [] && forall k :: 0 <= k < |line| - 1 ==> line[k] != '\n'
  }

  /**
   * The lines `for line in f` (or `f.readlines()`) yields, cut after each '\n';
   * the lemmas below say that they are lines and make up the whole file.
   */
  function SplitLines(t: string): (lines: seq<string>)
    decreases |t|
  {
    if t == [] then [] else [t[..LineLength(t)]] + SplitLines(t[LineLength(t)..])
  }

  /** The lines of a file, put back together, are the file. */
  lemma {:induction false} SplitLinesConcat(t: string)
    ensures Concat(SplitLines(t)) == t
    decreases |t|
  {
    if t != [] {
      var n := LineLength(t);
      var rest := SplitLines(t[n..]);
      var lines := [t[..n]] + rest;
      assert SplitLines(t) == lines;
      assert lines[0] == t[..n] && lines[1..] == rest;
      assert Concat(lines) == t[..n] + Concat(rest);
      SplitLinesConcat(t[n..]);
      assert t == t[..n] + t[n..];
    }
  }

  /** Every line is non-empty with '\n' at most at its end, and every line but the last ends in '\n'. */
  lemma {:induction false} SplitLinesAreLines(t: string)
    ensures forall i :: 0 <= i < |SplitLines(t)| ==> IsLine(SplitLines(t)[i])
    ensures forall i :: 0 <= i < |SplitLines(t)| - 1 ==>
              SplitLines(t)[i] != [] && SplitLines(t)[i][|SplitLines(t)[i]| - 1] == '\n'
    decreases |t|
  {
    if t != [] {
      var n := LineLength(t);
      var tail := SplitLines(t[n..]);
      var lines := SplitLines(t);
      assert lines == [t[..n]] + tail;
      SplitLinesAreLines(t[n..]);
      assert IsLine(lines[0]);
      assert tail != [] ==> n < |t|;
      forall i | 1 <= i < |lines|
        ensures IsLine(lines[i])
        ensures i < |lines| - 1 ==> lines[i] != [] && lines[i][|lines[i]| - 1] == '\n'
      {
        assert lines[i] == tail[i - 1];
      }
    }
  }

  /** `fp.seek(offset); fp.readline()`: the line starting at `offset`, or "" past the end. */
  function ReadLine(content: string, offset: nat): (line: string)
  {
    if offset >= |content| then [] else content[offset..offset + LineLength(content[offset..])]
  }

  /** The running offset after `i` lines: the sum of the lengths of `lines[..i]`. */
  function Start(lines: seq<string>, i: nat): nat
    requires i <= |lines|
  {
    if i == 0 then 0 else Start(lines, i - 1) + |lines[i - 1]|
  }

  /** Concatenating one more line appends it. */
  lemma {:induction false} ConcatSnoc(lines: seq<string>, line: string)
    ensures Concat(lines + [line]) == Concat(lines) + line
  {
    if lines == [] {
      assert [] + [line] == [line];
      assert [line][1..] == [];
    } else {
      assert (lines + [line])[1..] == lines[1..] + [line];
      ConcatSnoc(lines[1..], line);
    }
  }

  /** The running offset is the length of everything before line `i`. */
  lemma {:induction false} StartIsPrefixLength(lines: seq<string>, i: nat)
    requires i <= |lines|
    ensures Start(lines, i) == |Concat(lines[..i])|
  {
    if i > 0 {
      StartIsPrefixLength(lines, i - 1);
      assert lines[..i] == lines[..i - 1] + [lines[i - 1]];
      ConcatSnoc(lines[..i - 1], lines[i - 1]);
    }
  }

  /** Putting a line in front shifts every later offset by its length. */
  lemma {:induction false} StartOfCons(line: string, lines: seq<string>, i: nat)
    requires 1 <= i <= |lines| + 1
    ensures Start([line] + lines, i) == |line| + Start(lines, i - 1)
  {
    if i > 1 {
      StartOfCons(line, lines, i - 1);
      assert ([line] + lines)[i - 1] == lines[i - 2];
    }
  }

  /** Reading at `n + k` in `t` is reading at `k` in what follows the first `n` characters. */
  lemma ReadLineShift(t: string, n: nat, k: nat)
    requires n <= |t|
    ensures ReadLine(t, n + k) == ReadLine(t[n..], k)
  {
    if n + k < |t| {
      assert t[n + k..] == t[n..][k..];
    }
  }

  /**
   * Round trip of the offset index: seeking to the running offset of line `i` and
   * reading one line yields exactly line `i`, never a piece of a neighbour.
   */
  lemma {:induction false} ReadLineAtStart(t: string, i: nat)
    requires i < |SplitLines(t)|
    ensures Start(SplitLines(t), i) < |t|
    ensures ReadLine(t, Start(SplitLines(t), i)) == SplitLines(t)[i]
    decreases |t|
  {
    var n := LineLength(t);
    var tail := SplitLines(t[n..]);
    var lines := SplitLines(t);
    assert t != [];
    assert lines == [t[..n]] + tail;
    if i == 0 {
      assert t[0..] == t;
    } else {
      var k := Start(tail, i - 1);
      ReadLineAtStart(t[n..], i - 1);
      StartOfCons(t[..n], tail, i);
      assert Start(lines, i) == n + k;
      ReadLineShift(t, n, k);
      assert lines[i] == tail[i - 1];
    }
  }

  /**
   * An offset table holding the running offsets of the first lines of `t`: it
   * steps by one line's length, each offset is the length of the text before its
   * line, and reading a line there yields that line.
   */
  lemma OffsetsReadBack(t: string, offsets: seq<nat>)
    requires |offsets| <= |SplitLines(t)|
    requires forall i :: 0 <= i < |offsets| ==> offsets[i] == Start(SplitLines(t), i)
    ensures 0 < |offsets| ==> offsets[0] == 0
    ensures forall i :: 0 <= i < |offsets| - 1 ==> offsets[i + 1] == offsets[i] + |SplitLines(t)[i]|
    ensures forall i :: 0 <= i < |offsets| ==> offsets[i] == |Concat(SplitLines(t)[..i])|
    ensures forall i :: 0 <= i < |offsets| ==> ReadLine(t, offsets[i]) == SplitLines(t)[i]
  {
    var lines := SplitLines(t);
    forall i | 0 <= i < |offsets|
      ensures offsets[i] == |Concat(lines[..i])|
      ensures ReadLine(t, offsets[i]) == lines[i]
      ensures i + 1 < |offsets| ==> offsets[i + 1] == offsets[i] + |lines[i]|
    {
      if i + 1 < |offsets| {
        assert offsets[i + 1] == Start(lines, i + 1);
      }
      StartIsPrefixLength(lines, i);
      ReadLineAtStart(t, i);
    }
  }
}
