/** The small part of Python's `str` behaviour that the feed renderer relies on:
    `find`, slicing with negative and clamped bounds, `splitlines` (for '\n'),
    `join`, `rjust` and `str` of a natural number. */
module PyStr {

  /** `sub` occurs in `s` starting at index `i`. */
  predicate OccursAt(s: string, sub: string, i: int)
  {
    0 <= i && i + |sub| <= |s| && s[i..i + |sub|] == sub
  }

  /** `sub` occurs somewhere in `s`. */
  predicate Contains(s: string, sub: string)
  {
    exists i | 0 <= i <= |s| :: OccursAt(s, sub, i)
  }

  /** `s.find(sub)`: the least index at which `sub` occurs, or -1 when it does not occur. */
  function Find(s: string, sub: string): (r: int)
    ensures -1 <= r <= |s|
    ensures r >= 0 ==> OccursAt(s, sub, r)
    ensures forall j :: 0 <= j && (r < 0 || j < r) ==> !OccursAt(s, sub, j)
    ensures r == -1 <==> !Contains(s, sub)
  {
    FindFrom(s, sub, 0)
  }

  function FindFrom(s: string, sub: string, i: nat): (r: int)
    requires i <= |s|
    ensures r == -1 || (i <= r <= |s| && OccursAt(s, sub, r))
    ensures forall j :: i <= j && (r < 0 || j < r) ==> !OccursAt(s, sub, j)
    decreases |s| - i
  {
    if i + |sub| > |s| then -1
    else if s[i..i + |sub|] == sub then i
    else FindFrom(s, sub, i + 1)
  }

  /** The first occurrence is found wherever it is. */
  lemma FindAt(s: string, sub: string, p: nat)
    requires OccursAt(s, sub, p)
    requires forall j :: 0 <= j < p ==> !OccursAt(s, sub, j)
    ensures Find(s, sub) == p
  {
  }

  /** Python's normalisation of one slice bound against a length `n`:
      a negative bound counts from the end, and the result is clamped to [0, n]. */
  function Bound(i: int, n: nat): (b: nat)
    ensures b <= n
    ensures 0 <= i <= n ==> b == i
    ensures i < 0 && 0 <= i + n ==> b == i + n
    ensures i > n ==> b == n
    ensures i + n < 0 ==> b == 0
  {
    if i < 0 then (if i + n < 0 then 0 else i + n)
    else if i > n then n
    else i
  }

  /** `s[start:stop]`: the run of `s` between the normalised bounds, empty when they cross. */
  function Slice(s: string, start: int, stop: int): (r: string)
    ensures Bound(start, |s|) + |r| <= |s|
    ensures r == s[Bound(start, |s|)..Bound(start, |s|) + |r|]
    ensures |r| == if Bound(start, |s|) < Bound(stop, |s|) then Bound(stop, |s|) - Bound(start, |s|) else 0
  {
    var lo, hi := Bound(start, |s|), Bound(stop, |s|);
    if lo < hi then s[lo..hi] else []
  }

  /** `sep.join(xs)`. */
  function Join(sep: string, xs: seq<string>): string
  {
    if |xs| == 0 then []
    else if |xs| == 1 then xs[0]
    else xs[0] + sep + Join(sep, xs[1..])
  }

  /** Total length of a sequence of strings. */
  function SumLen(xs: seq<string>): nat
  {
    if xs == [] then 0 else |xs[0]| + SumLen(xs[1..])
  }

  /** Joining puts one separator between neighbours and nothing else. */
  lemma {:induction false} JoinLength(sep: string, xs: seq<string>)
    requires |xs| >= 1
    ensures |Join(sep, xs)| == SumLen(xs) + (|xs| - 1) * |sep|
  {
    if |xs| > 1 {
      JoinLength(sep, xs[1..]);
    }
  }

  /** With the empty separator, `''.join(xs)` is as long as its pieces together. */
  lemma {:induction false} ConcatLength(xs: seq<string>)
    ensures |Join("", xs)| == SumLen(xs)
  {
    if |xs| > 1 {
      ConcatLength(xs[1..]);
    }
  }

  /** The joined string starts with the first piece. */
  lemma JoinStartsWithFirst(sep: string, xs: seq<string>)
    requires |xs| >= 1
    ensures xs[0] <= Join(sep, xs)
  {
  }

  /** Removing the last piece of a join removes the last separator with it. */
  lemma {:induction false} JoinDropLast(sep: string, xs: seq<string>)
    requires |xs| >= 2
    ensures Join(sep, xs) == Join(sep, xs[..|xs| - 1]) + sep + xs[|xs| - 1]
  {
    if |xs| > 2 {
      JoinDropLast(sep, xs[1..]);
      assert xs[1..][..|xs| - 2] == xs[1..|xs| - 1];
      assert xs[..|xs| - 1][1..] == xs[1..|xs| - 1];
    }
  }

  /** Splitting at every occurrence of the single character `sep`
      (Python's `s.split(sep)`): never empty, and no piece holds a separator. */
  function SplitOn(s: string, sep: char): (parts: seq<string>)
    ensures |parts| >= 1
    ensures forall k :: 0 <= k < |parts| ==> sep !in parts[k]
    decreases |s|
  {
    if s == [] then [[]]
    else
      var rest := SplitOn(s[1..], sep);
      if s[0] == sep then [[]] + rest
      else [[s[0]] + rest[0]] + rest[1..]
  }

  /** Splitting and joining again gives back the string. */
  lemma {:induction false} JoinSplit(s: string, sep: char)
    ensures Join([sep], SplitOn(s, sep)) == s
  {
    if s != [] {
      var rest := SplitOn(s[1..], sep);
      JoinSplit(s[1..], sep);
      if s[0] != sep && |rest| > 1 {
        assert rest == [rest[0]] + rest[1..];
      }
    }
  }

  /** A separator-free prefix ends up at the front of the first piece. */
  lemma {:induction false} SplitOnAppend(a: string, b: string, sep: char)
    requires sep !in a
    ensures SplitOn(a + b, sep) == [a + SplitOn(b, sep)[0]] + SplitOn(b, sep)[1..]
  {
    if a == [] {
      assert a + b == b;
      assert a + SplitOn(b, sep)[0] == SplitOn(b, sep)[0];
      assert SplitOn(b, sep) == [SplitOn(b, sep)[0]] + SplitOn(b, sep)[1..];
    } else {
      assert (a + b)[0] == a[0] && a[0] != sep;
      assert (a + b)[1..] == a[1..] + b;
      SplitOnAppend(a[1..], b, sep);
      assert [a[0]] + (a[1..] + SplitOn(b, sep)[0]) == a + SplitOn(b, sep)[0];
    }
  }

  /** Joining separator-free pieces and splitting again gives back the pieces. */
  lemma {:induction false} SplitJoin(xs: seq<string>, sep: char)
    requires |xs| >= 1
    requires forall k :: 0 <= k < |xs| ==> sep !in xs[k]
    ensures SplitOn(Join([sep], xs), sep) == xs
  {
    if |xs| == 1 {
      SplitOnAppend(xs[0], [], sep);
      assert xs[0] + [] == xs[0];
    } else {
      SplitJoin(xs[1..], sep);
      var tail := Join([sep], xs[1..]);
      assert Join([sep], xs) == xs[0] + ([sep] + tail);
      SplitOnAppend(xs[0], [sep] + tail, sep);
      assert ([sep] + tail)[1..] == tail;
      assert xs[0] + [] == xs[0];
    }
  }

  /** The first piece is what comes before the first separator, whatever follows it. */
  lemma {:induction false} SplitFirstPiece(a: string, b: string, sep: char)
    ensures SplitOn(a + [sep] + b, sep)[0] == SplitOn(a, sep)[0]
  {
    if a != [] {
      assert (a + [sep] + b)[1..] == a[1..] + [sep] + b;
      SplitFirstPiece(a[1..], b, sep);
    }
  }

  /** `s.splitlines()` for '\n' line breaks: the pieces between breaks, where a
      final break does not start another (empty) line and "" has no lines. */
  function SplitLines(s: string): (lines: seq<string>)
    ensures forall k :: 0 <= k < |lines| ==> '\n' !in lines[k]
    ensures |lines| == 0 <==> s == []
  {
    if s == [] then []
    else
      var parts := SplitOn(s, '\n');
      JoinSplit(s, '\n');
      assert |parts| == 1 ==> s == parts[0];
      if parts[|parts| - 1] == [] then parts[..|parts| - 1] else parts
  }

  /** The line break that ends the text, if any: what `splitlines` does not keep. */
  function TrailingBreak(s: string): string
  {
    if s != [] && s[|s| - 1] == '\n' then "\n" else ""
  }

  /** `splitlines` loses nothing but the final line break:
      joining the lines with '\n' and putting that break back gives the text. */
  lemma SplitLinesJoin(s: string)
    ensures Join("\n", SplitLines(s)) + TrailingBreak(s) == s
  {
    if s != [] {
      var parts := SplitOn(s, '\n');
      JoinSplit(s, '\n');
      var n := |parts|;
      if n == 1 {
        assert s == parts[0];
      } else {
        JoinDropLast("\n", parts);
      }
      if parts[n - 1] == [] {
        assert s == Join("\n", parts[..n - 1]) + "\n";
        assert s[|s| - 1] == '\n';
      } else {
        var last := parts[n - 1];
        assert s[|s| - |last|..] == last;
        assert s[|s| - 1] == last[|last| - 1];
        assert last[|last| - 1] in last;
      }
    }
  }

  /** A text whose last `\n` piece is not empty splits into lines exactly as it splits at `\n`. */
  lemma SplitLinesOfPieces(s: string)
    requires SplitOn(s, '\n')[|SplitOn(s, '\n')| - 1] != []
    ensures SplitLines(s) == SplitOn(s, '\n')
  {
    assert s != [];
  }

  /** `SplitJoin` for line breaks. */
  lemma SplitJoinLines(ls: seq<string>)
    requires |ls| >= 1
    requires forall k :: 0 <= k < |ls| ==> '\n' !in ls[k]
    ensures SplitOn(Join("\n", ls), '\n') == ls
  {
    SplitJoin(ls, '\n');
  }

  /** Lines without a break that do not end in an empty line come back from `splitlines`. */
  lemma SplitLinesOfJoin(ls: seq<string>)
    requires |ls| >= 1 && ls[|ls| - 1] != []
    requires forall k :: 0 <= k < |ls| ==> '\n' !in ls[k]
    ensures SplitLines(Join("\n", ls)) == ls
  {
    SplitJoinLines(ls);
    SplitLinesOfPieces(Join("\n", ls));
  }

  /** Lines without a break, each ended by a break (the last one may be blank), come
      back from `splitlines`: the final break does not start another line. */
  lemma SplitLinesOfJoinEnded(ls: seq<string>)
    requires |ls| >= 1
    requires forall k :: 0 <= k < |ls| ==> '\n' !in ls[k]
    ensures SplitLines(Join("\n", ls) + "\n") == ls
  {
    var xs := ls + [""];
    var s := Join("\n", ls) + "\n";
    assert forall k :: 0 <= k < |xs| ==> '\n' !in xs[k];
    JoinDropLast("\n", xs);
    assert xs[..|xs| - 1] == ls;
    assert Join("\n", xs) == s;
    SplitJoin(xs, '\n');
    assert SplitOn(s, '\n') == xs;
    assert s != [];
    assert xs[..|xs| - 1] == ls;
  }

  /** A non-empty text has a first line; it is a break-free prefix of the text,
      and it is the text before the first break. */
  lemma FirstLine(s: string)
    requires s != []
    ensures |SplitLines(s)| >= 1
    ensures SplitLines(s)[0] == SplitOn(s, '\n')[0]
    ensures SplitLines(s)[0] <= s
  {
    var parts := SplitOn(s, '\n');
    JoinSplit(s, '\n');
    JoinStartsWithFirst("\n", parts);
    if |parts| == 1 {
      assert parts[0] == s;
    }
  }

  /** A break-free text is its own first piece. */
  lemma SplitOnNoSeparator(s: string, sep: char)
    ensures sep !in s ==> SplitOn(s, sep) == [s]
  {
    if sep !in s {
      SplitOnAppend(s, [], sep);
      assert s + [] == s;
    }
  }

  /** `n` copies of `c`. */
  function Repeat(c: char, n: nat): (r: string)
    ensures |r| == n
    ensures forall k :: 0 <= k < n ==> r[k] == c
  {
    seq(n, _ => c)
  }

  /** `s.rjust(width, fill)`: pads `s` on the left with `fill` up to `width`,
      leaving a string already that wide unchanged. */
  function RJust(s: string, width: int, fill: char): (r: string)
    ensures |r| == if |s| >= width then |s| else width
    ensures |s| <= |r| && r[|r| - |s|..] == s
    ensures forall k :: 0 <= k < |r| - |s| ==> r[k] == fill
  {
    if |s| >= width then s else Repeat(fill, width - |s|) + s
  }

  /** A string already at least `width` long is left alone. */
  lemma RJustWide(s: string, width: int, fill: char)
    requires |s| >= width
    ensures RJust(s, width, fill) == s
  {
    assert RJust(s, width, fill)[0..] == s;
  }

  predicate IsDigit(c: char)
  {
    '0' <= c <= '9'
  }

  function DigitChar(d: nat): (c: char)
    requires d < 10
    ensures IsDigit(c) && c as int - '0' as int == d
  {
    ('0' as int + d) as char
  }

  /** `str(n)` for a natural number: its decimal digits, without leading zeros. */
  function NatStr(n: nat): (s: string)
    ensures |s| >= 1
    ensures forall k :: 0 <= k < |s| ==> IsDigit(s[k])
    decreases n
  {
    if n < 10 then [DigitChar(n)] else NatStr(n / 10) + [DigitChar(n % 10)]
  }

  function DigitValue(c: char): nat
    requires IsDigit(c)
  {
    c as int - '0' as int
  }

  /** `int(s)` for a string of decimal digits. */
  function DigitsValue(s: string): nat
    requires forall k :: 0 <= k < |s| ==> IsDigit(s[k])
  {
    if s == [] then 0
    else DigitsValue(s[..|s| - 1]) * 10 + DigitValue(s[|s| - 1])
  }

  /** Reading the decimal digits back gives the number. */
  lemma {:induction false} NatStrValue(n: nat)
    ensures DigitsValue(NatStr(n)) == n
  {
    if n >= 10 {
      NatStrValue(n / 10);
      var s := NatStr(n);
      assert s[..|s| - 1] == NatStr(n / 10);
    }
  }

  /** How many digits `str(n)` has, for the widths a date uses. */
  lemma NatStrLength(n: nat)
    ensures n < 10 ==> |NatStr(n)| == 1
    ensures 10 <= n < 100 ==> |NatStr(n)| == 2
    ensures 1000 <= n < 10000 ==> |NatStr(n)| == 4
  {
    if n >= 10 {
      NatStrLength(n / 10);
      if n >= 1000 {
        NatStrLength(n / 100);
        NatStrLength(n / 1000);
      }
    }
  }
}
