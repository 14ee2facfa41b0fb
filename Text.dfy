/** The two JavaScript string operations the forum relies on:
    `String.prototype.split` with a one-character separator and
    `String.prototype.trim`. */
module Text {

  /** `parts` joined back together with `sep` between neighbours:
      the inverse of `Split`. */
  function Join(parts: seq<string>, sep: char): (s: string)
    requires |parts| >= 1
    decreases |parts|
  {
    if |parts| == 1 then parts[0] else parts[0] + [sep] + Join(parts[1..], sep)
  }

  /** The number of occurrences of `c` in `s`. */
  function Count(s: string, c: char): nat {
    if s == [] then 0 else (if s[0] == c then 1 else 0) + Count(s[1..], c)
  }

  /** `s.split(sep)`: the maximal runs between separators, including empty
      ones; the empty string splits into one empty piece. There is one piece
      more than there are separators. */
  function Split(s: string, sep: char): (parts: seq<string>)
    ensures |parts| == Count(s, sep) + 1
    decreases |s|
  {
    if s == [] then [[]]
    else
      var rest := Split(s[1..], sep);
      if s[0] == sep then [[]] + rest
      else [[s[0]] + rest[0]] + rest[1..]
  }

  /** The pieces of a split hold no separator, and joining them with the
      separator gives the string back. */
  lemma {:induction false} SplitPieces(s: string, sep: char)
    ensures forall k :: 0 <= k < |Split(s, sep)| ==> sep !in Split(s, sep)[k]
    ensures Join(Split(s, sep), sep) == s
    decreases |s|
  {
    if s != [] {
      var rest := Split(s[1..], sep);
      var parts := Split(s, sep);
      SplitPieces(s[1..], sep);
      if s[0] == sep {
        assert parts == [[]] + rest && parts[1..] == rest;
        assert Join(parts, sep) == [sep] + Join(rest, sep);
        assert forall k :: 1 <= k < |parts| ==> parts[k] == rest[k - 1];
      } else {
        var head := [s[0]] + rest[0];
        assert parts == [head] + rest[1..] && parts[1..] == rest[1..];
        assert sep !in head;
        if |rest| == 1 {
          assert Join(parts, sep) == head == [s[0]] + Join(rest, sep);
        } else {
          assert Join(parts, sep) == head + [sep] + Join(rest[1..], sep);
          assert Join(rest, sep) == rest[0] + [sep] + Join(rest[1..], sep);
        }
        assert forall k :: 1 <= k < |parts| ==> parts[k] == rest[k];
      }
      assert s == [s[0]] + s[1..];
    }
  }

  /** Splitting the join of separator-free pieces gives those pieces back. */
  lemma {:induction false} SplitJoin(parts: seq<string>, sep: char)
    requires |parts| >= 1
    requires forall k :: 0 <= k < |parts| ==> sep !in parts[k]
    ensures Split(Join(parts, sep), sep) == parts
    decreases |parts|
  {
    var p := parts[0];
    assert forall k :: 0 <= k < |p| ==> p[k] in p;
    if |parts| == 1 {
      SplitPrefix(p, [], sep);
      assert Split([], sep) == [[]];
      assert p + [] == p;
    } else {
      assert forall k :: 0 <= k < |parts| - 1 ==> parts[1..][k] == parts[k + 1];
      SplitJoin(parts[1..], sep);
      SplitJoinStep(p, parts[1..], sep);
      assert parts == [p] + parts[1..];
    }
  }

  lemma SplitJoinStep(p: string, tail: seq<string>, sep: char)
    requires |tail| >= 1 && Split(Join(tail, sep), sep) == tail
    requires forall k :: 0 <= k < |p| ==> p[k] != sep
    ensures Split(Join([p] + tail, sep), sep) == [p] + tail
  {
    var rest := Join(tail, sep);
    assert ([p] + tail)[1..] == tail;
    assert Join([p] + tail, sep) == p + ([sep] + rest);
    SplitPrefix(p, [sep] + rest, sep);
    SplitSeparator(rest, sep);
    var y := Split([sep] + rest, sep);
    assert y[0] == [] && y[1..] == tail;
    assert p + y[0] == p;
  }

  /** A separator-free prefix joins the first piece of what follows it. */
  lemma {:induction false} SplitPrefix(p: string, rest: string, sep: char)
    requires forall k :: 0 <= k < |p| ==> p[k] != sep
    ensures Split(p + rest, sep) == [p + Split(rest, sep)[0]] + Split(rest, sep)[1..]
    decreases |p|
  {
    if p != [] {
      var x := Split(rest, sep);
      var y := Split(p[1..] + rest, sep);
      assert forall k :: 0 <= k < |p| - 1 ==> p[1..][k] == p[k + 1];
      SplitPrefix(p[1..], rest, sep);
      assert y[0] == p[1..] + x[0] && y[1..] == x[1..];
      assert p + rest == [p[0]] + (p[1..] + rest);
      SplitOther(p[0], p[1..] + rest, sep);
      assert [p[0]] + (p[1..] + x[0]) == p + x[0];
    } else {
      var x := Split(rest, sep);
      assert p + rest == rest && p + x[0] == x[0];
      assert x == [x[0]] + x[1..];
    }
  }

  lemma SplitSeparator(t: string, sep: char)
    ensures Split([sep] + t, sep) == [[]] + Split(t, sep)
  {
    assert ([sep] + t)[1..] == t;
  }

  lemma SplitOther(c: char, t: string, sep: char)
    requires c != sep
    ensures Split([c] + t, sep) == [[c] + Split(t, sep)[0]] + Split(t, sep)[1..]
  {
    assert ([c] + t)[1..] == t;
  }

  /** ECMAScript's WhiteSpace and LineTerminator code points: what `trim` removes. */
  predicate IsWhiteSpace(c: char) {
    || c == '\t' || c == '\n' || c == '\U{000B}' || c == '\U{000C}' || c == '\r' || c == ' '
    || c == '\U{00A0}' || c == '\U{1680}' || ('\U{2000}' <= c <= '\U{200A}')
    || c == '\U{2028}' || c == '\U{2029}' || c == '\U{202F}' || c == '\U{205F}'
    || c == '\U{3000}' || c == '\U{FEFF}'
  }

  predicate AllWhiteSpace(s: string) {
    forall k :: 0 <= k < |s| ==> IsWhiteSpace(s[k])
  }

  /** The length of the white-space run at the start of `s`. */
  function LeadingSpace(s: string): (n: nat)
    ensures n <= |s|
    ensures forall k :: 0 <= k < n ==> IsWhiteSpace(s[k])
    ensures n < |s| ==> !IsWhiteSpace(s[n])
    decreases |s|
  {
    if s != [] && IsWhiteSpace(s[0]) then 1 + LeadingSpace(s[1..]) else 0
  }

  /** The length of the white-space run at the end of `s`. */
  function TrailingSpace(s: string): (n: nat)
    ensures n <= |s|
    ensures forall k :: |s| - n <= k < |s| ==> IsWhiteSpace(s[k])
    ensures n < |s| ==> !IsWhiteSpace(s[|s| - n - 1])
    decreases |s|
  {
    if s != [] && IsWhiteSpace(s[|s| - 1]) then 1 + TrailingSpace(s[..|s| - 1]) else 0
  }

  /** `s.trim()`: `s` with its leading and trailing white space removed.
      The result is an infix of `s` that is empty or neither starts nor
      ends with white space, and what it leaves out on either side is all
      white space. */
  function Trim(s: string): (t: string)
    ensures exists i, j :: 0 <= i <= j <= |s| && t == s[i..j]
              && AllWhiteSpace(s[..i]) && AllWhiteSpace(s[j..])
    ensures t == [] || (!IsWhiteSpace(t[0]) && !IsWhiteSpace(t[|t| - 1]))
  {
    var j := |s| - TrailingSpace(s);
    var i := LeadingSpace(s[..j]);
    assert AllWhiteSpace(s[..i]) by {
      forall k | 0 <= k < i ensures IsWhiteSpace(s[..i][k]) {
        assert s[..i][k] == s[..j][k];
      }
    }
    assert AllWhiteSpace(s[j..]) by {
      forall k | 0 <= k < |s| - j ensures IsWhiteSpace(s[j..][k]) {
        assert s[j..][k] == s[j + k];
      }
    }
    s[i..j]
  }

  /** A white-space run at the start of `s` that stops at the end of `s`
      or before a character that is not white space is `LeadingSpace(s)`. */
  lemma LeadingSpaceIs(s: string, m: nat)
    requires m <= |s| && forall k :: 0 <= k < m ==> IsWhiteSpace(s[k])
    requires m < |s| ==> !IsWhiteSpace(s[m])
    ensures LeadingSpace(s) == m
  {
  }

  /** Likewise at the end: such a run is `TrailingSpace(s)`. */
  lemma TrailingSpaceIs(s: string, m: nat)
    requires m <= |s| && forall k :: |s| - m <= k < |s| ==> IsWhiteSpace(s[k])
    requires m < |s| ==> !IsWhiteSpace(s[|s| - m - 1])
    ensures TrailingSpace(s) == m
  {
  }

  /** A string whose white-space margins end at `i` and start at `j`, with
      non-white-space characters just inside them, trims to `s[i..j]`. */
  lemma TrimIs(s: string, i: nat, j: nat)
    requires i < j <= |s|
    requires forall k :: 0 <= k < i ==> IsWhiteSpace(s[k])
    requires forall k :: j <= k < |s| ==> IsWhiteSpace(s[k])
    requires !IsWhiteSpace(s[i]) && !IsWhiteSpace(s[j - 1])
    ensures Trim(s) == s[i..j]
  {
    TrailingSpaceIs(s, |s| - j);
    var w := s[..j];
    LeadingSpaceIs(w, i);
    assert w[i..] == s[i..j];
  }

  /** A string of white space only trims to the empty string. */
  lemma TrimBlank(s: string)
    requires forall k :: 0 <= k < |s| ==> IsWhiteSpace(s[k])
    ensures Trim(s) == []
  {
    TrailingSpaceIs(s, |s|);
  }

  /** `s` is `t` with white space, possibly none, on either side. */
  ghost predicate PadsTo(s: string, t: string) {
    exists before, after :: AllWhiteSpace(before) && AllWhiteSpace(after) && s == before + t + after
  }

  /** A string is its trimmed form with white space around it. */
  lemma TrimMargins(s: string)
    ensures PadsTo(s, Trim(s))
  {
    var i, j :| 0 <= i <= j <= |s| && Trim(s) == s[i..j] && AllWhiteSpace(s[..i]) && AllWhiteSpace(s[j..]);
    assert s == s[..i] + s[i..j] + s[j..];
  }

  /** `Trim` is determined by its description: whatever surrounds a trimmed
      string with white space, trimming gives that string back. */
  lemma TrimUnique(before: string, t: string, after: string)
    requires AllWhiteSpace(before) && AllWhiteSpace(after)
    requires t == [] || (!IsWhiteSpace(t[0]) && !IsWhiteSpace(t[|t| - 1]))
    ensures Trim(before + t + after) == t
  {
    var s := before + t + after;
    var lo, hi := |before|, |before| + |t|;
    assert forall k :: 0 <= k < lo ==> s[k] == before[k];
    assert forall k :: hi <= k < |s| ==> s[k] == after[k - hi];
    if t == [] {
      TrimBlank(s);
    } else {
      assert s[lo] == t[0] && s[hi - 1] == t[|t| - 1];
      TrimIs(s, lo, hi);
      assert s[lo..hi] == t;
    }
  }

  /** Padding determines the trimmed string: a string that is `t` with
      white space around it trims to `t` when `t` neither starts nor ends
      with white space. */
  lemma PaddedTrim(s: string, t: string)
    requires PadsTo(s, t)
    requires t == [] || (!IsWhiteSpace(t[0]) && !IsWhiteSpace(t[|t| - 1]))
    ensures Trim(s) == t
  {
    var before, after :| AllWhiteSpace(before) && AllWhiteSpace(after) && s == before + t + after;
    TrimUnique(before, t, after);
  }
}
