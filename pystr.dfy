/**
 The Python `str` operations the release script relies on: `find`,
 `split` (with `join` and `count` as its partners), slicing with a
 possibly negative end, `splitlines` and `strip`.
 */
module PyStr {

  /** True when `needle` occurs in `s` starting at index `i`. */
  predicate OccursAt(s: string, needle: string, i: int) {
    0 <= i && i + |needle| <= |s| && s[i..i + |needle|] == needle
  }

  /** Python's `needle in s`. */
  predicate Contains(s: string, needle: string) {
    exists i :: 0 <= i <= |s| - |needle| && OccursAt(s, needle, i)
  }

  // ---------------------------------------------------------------- find

  /** `s.find(needle, i)`: the lowest index at or after `i` where `needle` occurs, or -1. */
  function FindFrom(s: string, needle: string, i: nat): (r: int)
    ensures -1 <= r
    ensures r >= 0 ==> i <= r && OccursAt(s, needle, r)
    ensures r >= 0 ==> forall j :: i <= j < r ==> !OccursAt(s, needle, j)
    ensures r == -1 ==> forall j :: i <= j ==> !OccursAt(s, needle, j)
    decreases |s| - i
  {
    if i + |needle| > |s| then -1
    else if s[i..i + |needle|] == needle then i
    else FindFrom(s, needle, i + 1)
  }

  /** `s.find(needle)`: the lowest index where `needle` occurs, or -1 when it does not. */
  function Find(s: string, needle: string): (r: int)
    ensures -1 <= r
    ensures r == -1 <==> !Contains(s, needle)
    ensures r >= 0 ==> OccursAt(s, needle, r)
    ensures r >= 0 ==> forall j :: 0 <= j < r ==> !OccursAt(s, needle, j)
  {
    FindFrom(s, needle, 0)
  }

  /** An occurrence with none before it is the one `Find` reports. */
  lemma FindIsFirst(s: string, needle: string, i: int)
    requires OccursAt(s, needle, i)
    requires forall j :: 0 <= j < i ==> !OccursAt(s, needle, j)
    ensures Find(s, needle) == i
  {
  }

  /** An occurrence inside a prefix of `s` is an occurrence in `s`. */
  lemma OccursInPrefix(s: string, needle: string, n: nat, j: int)
    requires n <= |s|
    requires OccursAt(s[..n], needle, j)
    ensures OccursAt(s, needle, j)
  {
    assert s[..n][j..j + |needle|] == s[j..j + |needle|];
  }

  /** An occurrence of `needle` in `s` that ends inside a prefix of `s` lies in that prefix. */
  lemma OccursInsidePrefix(s: string, needle: string, n: nat, j: int)
    requires OccursAt(s, needle, j) && j + |needle| <= n <= |s|
    ensures OccursAt(s[..n], needle, j)
  {
    assert s[..n][j..j + |needle|] == s[j..j + |needle|];
  }

  /** An occurrence inside a suffix of `s` is an occurrence in `s`, shifted. */
  lemma OccursInSuffix(s: string, needle: string, n: nat, j: int)
    requires n <= |s|
    requires OccursAt(s[n..], needle, j)
    ensures OccursAt(s, needle, n + j)
  {
    assert s[n..][j..j + |needle|] == s[n + j..n + j + |needle|];
  }

  /** A one-character needle occurs exactly where that character stands. */
  lemma OccursAtChar(s: string, c: char, i: int)
    ensures OccursAt(s, [c], i) <==> 0 <= i < |s| && s[i] == c
  {
    if 0 <= i < |s| {
      assert s[i..i + 1] == [s[i]];
    }
  }

  /** For a one-character needle, `find` is "the index of the first `c`". */
  lemma FindChar(s: string, c: char)
    ensures Find(s, [c]) == -1 <==> c !in s
    ensures Find(s, [c]) >= 0 ==> Find(s, [c]) < |s| && s[Find(s, [c])] == c
    ensures Find(s, [c]) >= 0 ==> c !in s[..Find(s, [c])]
  {
    var r := Find(s, [c]);
    if r >= 0 {
      OccursAtChar(s, c, r);
      forall j | 0 <= j < r ensures s[j] != c {
        OccursAtChar(s, c, j);
      }
    } else if c in s {
      var i :| 0 <= i < |s| && s[i] == c;
      OccursAtChar(s, c, i);
    }
  }

  // ------------------------------------------------------- slicing s[:n]

  /** Python's `s[:n]`: a negative `n` counts back from the end, and both ends are clamped. */
  function SlicePrefix(s: string, n: int): (r: string)
    ensures |r| <= |s| && r == s[..|r|]
    ensures 0 <= n ==> |r| == if n <= |s| then n else |s|
    ensures n < 0 ==> |r| == if |s| + n >= 0 then |s| + n else 0
  {
    if 0 <= n then (if n <= |s| then s[..n] else s)
    else if |s| + n >= 0 then s[..|s| + n]
    else []
  }

  // ------------------------------------------------- split / join / count

  /** Python's `s.split(sep)` for a non-empty separator: the text around the
      non-overlapping occurrences of `sep`, found left to right. */
  function Split(s: string, sep: string): (r: seq<string>)
    requires sep != []
    ensures |r| >= 1
    decreases |s|
  {
    var i := Find(s, sep);
    if i < 0 then [s] else [s[..i]] + Split(s[i + |sep|..], sep)
  }

  /** Python's `sep.join(pieces)`. */
  function Join(pieces: seq<string>, sep: string): string {
    if |pieces| == 0 then []
    else if |pieces| == 1 then pieces[0]
    else pieces[0] + sep + Join(pieces[1..], sep)
  }

  /** Python's `s.count(sep)` for a non-empty `sep`: occurrences counted left
      to right, each search resuming after the occurrence just counted. */
  function Count(s: string, sep: string): nat
    requires sep != []
    decreases |s|
  {
    if |s| < |sep| then 0
    else if s[..|sep|] == sep then 1 + Count(s[|sep|..], sep)
    else Count(s[1..], sep)
  }

  /** What it means for `pieces` to be `s` cut at its delimiters taken from the
      left: joining gives `s` back, the delimiter after each piece is the first
      occurrence in that piece followed by the delimiter, and the last piece
      has no delimiter left in it. */
  ghost predicate IsLeftmostSplit(pieces: seq<string>, s: string, sep: string) {
    && |pieces| >= 1
    && Join(pieces, sep) == s
    && (forall k :: 0 <= k < |pieces| - 1 ==> Find(pieces[k] + sep, sep) == |pieces[k]|)
    && !Contains(pieces[|pieces| - 1], sep)
  }

  /** If `a + sep` first contains `sep` at `|a|`, so does `a + sep + rest`. */
  lemma FindAfterPiece(a: string, sep: string, rest: string)
    requires Find(a + sep, sep) == |a|
    ensures Find(a + sep + rest, sep) == |a|
  {
    var s := a + sep + rest;
    assert (a + sep) == s[..|a| + |sep|];
    OccursInPrefix(s, sep, |a| + |sep|, |a|);
    forall j | 0 <= j < |a| ensures !OccursAt(s, sep, j) {
      if OccursAt(s, sep, j) {
        assert s[j..j + |sep|] == (a + sep)[j..j + |sep|];
        assert OccursAt(a + sep, sep, j);
        assert false;
      }
    }
    FindIsFirst(s, sep, |a|);
  }

  /** One step of `Split`: the text before the first separator, then the split of the rest. */
  lemma SplitStep(s: string, sep: string)
    requires sep != [] && Find(s, sep) >= 0
    ensures var i := Find(s, sep);
      && s == s[..i] + sep + s[i + |sep|..]
      && Split(s, sep) == [s[..i]] + Split(s[i + |sep|..], sep)
  {
    var i := Find(s, sep);
    assert s[i..i + |sep|] == sep;
  }

  /** Joining a piece in front of a non-empty list puts one separator between them. */
  lemma JoinCons(a: string, tail: seq<string>, sep: string)
    requires |tail| >= 1
    ensures Join([a] + tail, sep) == a + sep + Join(tail, sep)
  {
    assert ([a] + tail)[1..] == tail;
  }

  /** The text before the first separator, with that separator, first meets it at its end. */
  lemma FirstPieceLeftmost(s: string, sep: string)
    requires sep != [] && Find(s, sep) >= 0
    ensures Find(s[..Find(s, sep)] + sep, sep) == Find(s, sep)
  {
    var i := Find(s, sep);
    var t := s[..i] + sep;
    assert t == s[..i + |sep|];
    forall j | 0 <= j < i ensures !OccursAt(t, sep, j) {
      if OccursAt(t, sep, j) {
        OccursInPrefix(s, sep, i + |sep|, j);
      }
    }
    FindIsFirst(t, sep, i);
  }

  /** A piece whose separator is its first one can be put in front of a leftmost split. */
  lemma LeftmostCons(a: string, tail: seq<string>, rest: string, sep: string)
    requires Find(a + sep, sep) == |a|
    requires IsLeftmostSplit(tail, rest, sep)
    ensures IsLeftmostSplit([a] + tail, a + sep + rest, sep)
  {
    var r := [a] + tail;
    JoinCons(a, tail, sep);
    forall k | 0 <= k < |r| - 1 ensures Find(r[k] + sep, sep) == |r[k]| {
      if k > 0 {
        assert r[k] == tail[k - 1];
      }
    }
    assert r[|r| - 1] == tail[|tail| - 1];
  }

  /** `Split` cuts at the leftmost delimiters, and joining its pieces gives `s` back. */
  lemma {:induction false} SplitIsLeftmost(s: string, sep: string)
    requires sep != []
    ensures IsLeftmostSplit(Split(s, sep), s, sep)
    decreases |s|
  {
    var i := Find(s, sep);
    if i >= 0 {
      var head, rest := s[..i], s[i + |sep|..];
      SplitStep(s, sep);
      SplitIsLeftmost(rest, sep);
      FirstPieceLeftmost(s, sep);
      LeftmostCons(head, Split(rest, sep), rest, sep);
    }
  }

  /** Join round trip: joining the pieces of a split reproduces the text exactly. */
  lemma SplitJoin(s: string, sep: string)
    requires sep != []
    ensures Join(Split(s, sep), sep) == s
  {
    SplitIsLeftmost(s, sep);
  }

  /** No piece of a split contains the separator. */
  lemma SplitPiecesFree(s: string, sep: string)
    requires sep != []
    ensures forall k :: 0 <= k < |Split(s, sep)| ==> !Contains(Split(s, sep)[k], sep)
  {
    var r := Split(s, sep);
    SplitIsLeftmost(s, sep);
    forall k | 0 <= k < |r| - 1 ensures !Contains(r[k], sep) {
      if Contains(r[k], sep) {
        var j :| OccursAt(r[k], sep, j);
        assert r[k] == (r[k] + sep)[..|r[k]|];
        OccursInPrefix(r[k] + sep, sep, |r[k]|, j);
        assert false;
      }
    }
  }

  /** Any cut at the leftmost delimiters is the one `Split` computes. */
  lemma {:induction false} LeftmostSplitUnique(pieces: seq<string>, s: string, sep: string)
    requires sep != []
    requires IsLeftmostSplit(pieces, s, sep)
    ensures pieces == Split(s, sep)
    decreases |pieces|
  {
    if |pieces| == 1 {
      assert s == pieces[0];
    } else {
      var a, tail := pieces[0], pieces[1..];
      var rest := Join(tail, sep);
      assert s == a + sep + rest;
      FindAfterPiece(a, sep, rest);
      assert s[..|a|] == a;
      assert s[|a| + |sep|..] == rest;
      forall k | 0 <= k < |tail| - 1 ensures Find(tail[k] + sep, sep) == |tail[k]| {
        assert tail[k] == pieces[k + 1];
      }
      assert tail[|tail| - 1] == pieces[|pieces| - 1];
      LeftmostSplitUnique(tail, rest, sep);
      assert pieces == [a] + tail;
    }
  }

  /** `Count` is not changed by dropping a prefix in which `sep` does not start. */
  lemma {:induction false} CountSkip(s: string, sep: string, i: nat)
    requires sep != [] && i <= |s|
    requires forall j :: 0 <= j < i ==> !OccursAt(s, sep, j)
    ensures Count(s, sep) == Count(s[i..], sep)
    decreases i
  {
    if i > 0 {
      assert !OccursAt(s, sep, 0);
      if |s| < |sep| {
        assert |s[i..]| < |sep|;
      } else {
        assert s[..|sep|] != sep;
        forall j | 0 <= j < i - 1 ensures !OccursAt(s[1..], sep, j) {
          if OccursAt(s[1..], sep, j) {
            OccursInSuffix(s, sep, 1, j);
          }
        }
        CountSkip(s[1..], sep, i - 1);
        assert s[1..][i - 1..] == s[i..];
      }
    }
  }

  /** A split has one piece more than there are (non-overlapping) separators. */
  lemma {:induction false} SplitCount(s: string, sep: string)
    requires sep != []
    ensures |Split(s, sep)| == Count(s, sep) + 1
    decreases |s|
  {
    var i := Find(s, sep);
    if i < 0 {
      CountSkip(s, sep, |s|);
      assert s[|s|..] == [];
    } else {
      var rest := s[i + |sep|..];
      CountSkip(s, sep, i);
      var t := s[i..];
      assert t[..|sep|] == sep;
      assert t[|sep|..] == rest;
      SplitCount(rest, sep);
    }
  }

  // ---------------------------------------------------------- splitlines

  /** The characters `str.splitlines` breaks on: line feed, carriage return,
      vertical tab, form feed, the file/group/record separators, next line,
      and the Unicode line and paragraph separators. */
  predicate IsLineBreak(c: char) {
    || '\n' <= c <= '\r'           // line feed, vertical tab, form feed, carriage return
    || '\U{001C}' <= c <= '\U{001E}' // file, group and record separators
    || c == '\U{0085}'               // next line
    || c == '\U{2028}' || c == '\U{2029}' // line and paragraph separators
  }

  predicate NoLineBreak(s: string) {
    forall k :: 0 <= k < |s| ==> !IsLineBreak(s[k])
  }

  /** The index of the first line break in `s`, or `|s|` when there is none. */
  function LineEnd(s: string): (i: nat)
    ensures i <= |s|
    ensures i < |s| ==> IsLineBreak(s[i])
    ensures NoLineBreak(s[..i])
  {
    if s == [] || IsLineBreak(s[0]) then 0 else 1 + LineEnd(s[1..])
  }

  /** Where the line after the first one starts: past the first line break,
      which is two characters long when it is `\r\n`. */
  function NextLineStart(s: string): (n: nat)
    requires LineEnd(s) < |s|
    ensures LineEnd(s) < n <= |s|
  {
    var i := LineEnd(s);
    if s[i] == '\r' && i + 1 < |s| && s[i + 1] == '\n' then i + 2 else i + 1
  }

  /** Python's `s.splitlines()`: the lines of `s` without their line ends, where
      `\r\n` ends a line as one unit and a final line end opens no empty line. */
  function SplitLines(s: string): (r: seq<string>)
    ensures r == [] <==> s == []
    decreases |s|
  {
    if s == [] then []
    else if LineEnd(s) == |s| then [s]
    else [s[..LineEnd(s)]] + SplitLines(s[NextLineStart(s)..])
  }

  ghost predicate NoLineHasBreak(lines: seq<string>) {
    forall k :: 0 <= k < |lines| ==> NoLineBreak(lines[k])
  }

  /** No line produced by `splitlines` holds a line break. */
  lemma {:induction false} SplitLinesNoBreak(s: string)
    ensures NoLineHasBreak(SplitLines(s))
    decreases |s|
  {
    if s != [] && LineEnd(s) < |s| {
      var rest := s[NextLineStart(s)..];
      SplitLinesNoBreak(rest);
      var r := SplitLines(s);
      assert r == [s[..LineEnd(s)]] + SplitLines(rest);
      forall k | 0 <= k < |r| ensures NoLineBreak(r[k]) {
        if k > 0 {
          assert r[k] == SplitLines(rest)[k - 1];
        }
      }
    }
  }

  /** The first line of a non-empty text is its longest prefix without a line break. */
  lemma FirstLine(s: string)
    requires s != []
    ensures var line := SplitLines(s)[0];
      && |line| <= |s| && line == s[..|line|]
      && NoLineBreak(line)
      && (|line| == |s| || IsLineBreak(s[|line|]))
  {
  }

  /** A break-free line followed by any single-character line break other than
      `\r` is the first line, and the rest is split on its own. */
  lemma SplitLinesBreak(a: string, c: char, b: string)
    requires NoLineBreak(a)
    requires IsLineBreak(c) && c != '\r'
    ensures SplitLines(a + [c] + b) == [a] + SplitLines(b)
  {
    var s := a + [c] + b;
    assert s[..|a|] == a && s[|a|] == c;
    LineEndAt(s, a);
    assert s[|a| + 1..] == b;
  }

  /** `SplitLinesBreak` for `\n`, on a string already known to consist of `a`, a line feed and `b`. */
  lemma SplitLinesAt(s: string, a: string, b: string)
    requires NoLineBreak(a)
    requires |s| == |a| + 1 + |b| && s[..|a|] == a && s[|a|] == '\n' && s[|a| + 1..] == b
    ensures SplitLines(s) == [a] + SplitLines(b)
  {
    LineEndAt(s, a);
  }

  /** The first line break of a text that starts with a break-free `a` followed by a break is right after `a`. */
  lemma LineEndAt(s: string, a: string)
    requires NoLineBreak(a)
    requires |a| < |s| && s[..|a|] == a && IsLineBreak(s[|a|])
    ensures LineEnd(s) == |a|
  {
    assert forall k :: 0 <= k < |a| ==> s[k] == a[k];
  }

  /** `\r\n` ends a line as one unit: no empty line opens between its two characters. */
  lemma SplitLinesCrLf(a: string, b: string)
    requires NoLineBreak(a)
    ensures SplitLines(a + "\r\n" + b) == [a] + SplitLines(b)
  {
    var s := a + "\r\n" + b;
    assert s[..|a|] == a && s[|a|] == '\r' && s[|a| + 1] == '\n';
    LineEndAt(s, a);
    assert s[|a| + 2..] == b;
  }

  /** A carriage return not followed by a line feed ends a line on its own. */
  lemma SplitLinesLoneCr(a: string, b: string)
    requires NoLineBreak(a)
    requires b == [] || b[0] != '\n'
    ensures SplitLines(a + "\r" + b) == [a] + SplitLines(b)
  {
    var s := a + "\r" + b;
    assert s[..|a|] == a && s[|a|] == '\r';
    LineEndAt(s, a);
    assert s[|a| + 1..] == b;
  }

  /** A line, an empty line, and then the rest. */
  lemma SplitLinesBlankLine(a: string, b: string)
    requires NoLineBreak(a)
    ensures SplitLines(a + "\n\n" + b) == [a, ""] + SplitLines(b)
  {
    var s := a + "\n\n" + b;
    var t := s[|a| + 1..];
    assert s[..|a|] == a && s[|a|] == '\n';
    assert t[..0] == "" && t[0] == '\n' && t[1..] == b;
    SplitLinesAt(s, a, t);
    SplitLinesAt(t, "", b);
    var rest := SplitLines(b);
    assert [a] + ([""] + rest) == [a, ""] + rest;
  }

  // --------------------------------------------------------------- strip

  /** The characters `str.isspace` holds for: the ASCII whitespace, the four
      separator controls, next line, no-break space, and the Unicode space,
      line and paragraph separators. */
  predicate IsSpace(c: char) {
    || '\t' <= c <= '\r'            // tab, line feed, vertical tab, form feed, carriage return
    || '\U{001C}' <= c <= '\U{001F}' // file, group, record and unit separators
    || c == ' ' || c == '\U{0085}' || c == '\U{00A0}' || c == '\U{1680}'
    || '\U{2000}' <= c <= '\U{200A}' // en quad through hair space
    || c == '\U{2028}' || c == '\U{2029}' || c == '\U{202F}' || c == '\U{205F}' || c == '\U{3000}'
  }

  /** Python's `s.lstrip()`: the suffix left after dropping the leading whitespace. */
  function StripStart(s: string): (r: string)
    ensures |r| <= |s| && r == s[|s| - |r|..]
    ensures r == [] || !IsSpace(r[0])
    ensures forall k :: 0 <= k < |s| - |r| ==> IsSpace(s[k])
    decreases |s|
  {
    if s != [] && IsSpace(s[0]) then StripStart(s[1..]) else s
  }

  /** Python's `s.rstrip()`: the prefix left after dropping the trailing whitespace. */
  function StripEnd(s: string): (r: string)
    ensures |r| <= |s| && r == s[..|r|]
    ensures r == [] || !IsSpace(r[|r| - 1])
    ensures forall k :: |r| <= k < |s| ==> IsSpace(s[k])
    decreases |s|
  {
    if s != [] && IsSpace(s[|s| - 1]) then StripEnd(s[..|s| - 1]) else s
  }

  /** `r` stands in `s` at index `i`, with only whitespace before and after it. */
  ghost predicate IsTrimmedSliceAt(r: string, s: string, i: int) {
    && 0 <= i <= |s| - |r|
    && r == s[i..i + |r|]
    && (forall k :: 0 <= k < i ==> IsSpace(s[k]))
    && (forall k :: i + |r| <= k < |s| ==> IsSpace(s[k]))
  }

  /** A prefix `r` of a suffix `t` of `s`, where what `t` leaves out of `s`
      and what `r` leaves out of `t` is whitespace, is a trimmed slice of `s`. */
  lemma TrimmedSlice(s: string, t: string, r: string)
    requires |t| <= |s| && t == s[|s| - |t|..]
    requires forall k :: 0 <= k < |s| - |t| ==> IsSpace(s[k])
    requires |r| <= |t| && r == t[..|r|]
    requires forall k :: |r| <= k < |t| ==> IsSpace(t[k])
    ensures IsTrimmedSliceAt(r, s, |s| - |t|)
  {
    var i := |s| - |t|;
    assert r == s[i..i + |r|];
    forall k | i + |r| <= k < |s| ensures IsSpace(s[k]) {
      assert s[k] == t[k - i];
    }
  }

  /** Python's `s.strip()`: `s` without its leading and trailing whitespace. */
  function Strip(s: string): (r: string)
    ensures r == [] || (!IsSpace(r[0]) && !IsSpace(r[|r| - 1]))
    ensures exists i :: IsTrimmedSliceAt(r, s, i)
  {
    var t := StripStart(s);
    TrimmedSlice(s, t, StripEnd(t));
    assert StripEnd(t) != [] ==> StripEnd(t)[0] == t[0];
    StripEnd(t)
  }

  /** Stripping twice changes nothing more than stripping once. */
  lemma StripIdempotent(s: string)
    ensures Strip(Strip(s)) == Strip(s)
  {
    StripTrimmed(Strip(s));
  }

  /** A text with no whitespace at either end is left as it is. */
  lemma StripTrimmed(s: string)
    requires s == [] || (!IsSpace(s[0]) && !IsSpace(s[|s| - 1]))
    ensures Strip(s) == s
  {
    assert StripStart(s) == s;
    assert StripEnd(s) == s;
  }
}
