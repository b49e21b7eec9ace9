/** The string operations the handlers use: Python's `str.strip`, `str.lower` (as the
    database's `lower()` applies it), substring search, `str.splitlines` and `'\n'.join`. */
module Text {

  /** Python's `str.isspace` for one character. */
  predicate IsSpace(c: char)
  {
    c == ' ' || '\t' <= c <= '\r' || '\U{001C}' <= c <= '\U{001F}' || c == '\U{0085}' || c == '\U{00A0}'
    || c == '\U{1680}' || '\U{2000}' <= c <= '\U{200A}' || c == '\U{2028}' || c == '\U{2029}'
    || c == '\U{202F}' || c == '\U{205F}' || c == '\U{3000}'
  }

  /** The characters at which Python's `str.splitlines` breaks a string. */
  predicate IsLineBreak(c: char)
  {
    '\n' <= c <= '\r' || '\U{001C}' <= c <= '\U{001E}' || c == '\U{0085}' || c == '\U{2028}' || c == '\U{2029}'
  }

  predicate NoLineBreak(s: string)
  {
    forall i :: 0 <= i < |s| ==> !IsLineBreak(s[i])
  }

  predicate AllSpace(s: string)
  {
    forall i :: 0 <= i < |s| ==> IsSpace(s[i])
  }

  /** `s.lstrip()`. */
  function TrimLeft(s: string): string
  {
    if |s| > 0 && IsSpace(s[0]) then TrimLeft(s[1..]) else s
  }

  /** `lstrip` keeps the longest suffix that does not start with whitespace: what it drops is
      all whitespace. */
  lemma {:induction false} TrimLeftSpec(s: string)
    ensures var r := TrimLeft(s);
              && |r| <= |s| && r == s[|s| - |r|..]
              && AllSpace(s[..|s| - |r|])
              && (r == [] || !IsSpace(r[0]))
    decreases |s|
  {
    if |s| > 0 && IsSpace(s[0]) {
      TrimLeftSpec(s[1..]);
      var r := TrimLeft(s);
      var n := |s| - |r|;
      assert forall i :: 1 <= i < n ==> s[i] == s[1..][..n - 1][i - 1];
    }
  }

  /** `s.rstrip()`. */
  function TrimRight(s: string): string
  {
    if |s| > 0 && IsSpace(s[|s| - 1]) then TrimRight(s[..|s| - 1]) else s
  }

  /** `rstrip` keeps the longest prefix that does not end with whitespace: what it drops is
      all whitespace. */
  lemma {:induction false} TrimRightSpec(s: string)
    ensures var r := TrimRight(s);
              && |r| <= |s| && r == s[..|r|]
              && AllSpace(s[|r|..])
              && (r == [] || !IsSpace(r[|r| - 1]))
    decreases |s|
  {
    if |s| > 0 && IsSpace(s[|s| - 1]) {
      TrimRightSpec(s[..|s| - 1]);
      var r := TrimRight(s);
      assert forall i :: |r| <= i < |s| - 1 ==> s[i] == s[..|s| - 1][i];
    }
  }

  /** `s.strip()`. */
  function Trim(s: string): string
  {
    TrimRight(TrimLeft(s))
  }

  /** A string that `strip()` leaves unchanged is one with no whitespace at either end. */
  lemma TrimUnchanged(s: string)
    ensures Trim(s) == s <==> (s == [] || (!IsSpace(s[0]) && !IsSpace(s[|s| - 1])))
  {
    TrimLeftSpec(s);
    TrimRightSpec(TrimLeft(s));
    if s != [] && !IsSpace(s[0]) && !IsSpace(s[|s| - 1]) {
      assert TrimLeft(s) == s;
      assert TrimRight(s) == s;
    }
  }

  /** `strip()` returns a slice of its argument with no whitespace at either end, and what it
      drops before and after that slice is all whitespace. */
  lemma TrimSpec(s: string)
    ensures var t := Trim(s);
              && (exists i :: OccursAt(s, t, i) && AllSpace(s[..i]) && AllSpace(s[i + |t|..]))
              && (t == [] || (!IsSpace(t[0]) && !IsSpace(t[|t| - 1])))
  {
    var l := TrimLeft(s);
    TrimLeftSpec(s);
    TrimRightSpec(l);
    var t := TrimRight(l);
    var i := |s| - |l|;
    assert t == Trim(s);
    assert t == s[i..i + |t|];
    assert s[i + |t|..] == l[|t|..];
    assert OccursAt(s, t, i) && AllSpace(s[..i]) && AllSpace(s[i + |t|..]);
    if t != [] {
      assert t[0] == l[0];
    }
  }

  /** `s.strip()` is idempotent. */
  lemma TrimIdempotent(s: string)
    ensures Trim(Trim(s)) == Trim(s)
  {
    TrimSpec(s);
    TrimUnchanged(Trim(s));
  }

  /** A string is blank (`not s.strip()`) exactly when every character is whitespace. */
  lemma {:induction false} BlankIffAllSpace(s: string)
    ensures Trim(s) == [] <==> AllSpace(s)
  {
    var l := TrimLeft(s);
    TrimLeftSpec(s);
    TrimRightSpec(l);
    if Trim(s) == [] {
      assert AllSpace(l[|l|..]);
      assert s == s[..|s| - |l|] + l;
    } else {
      var r := TrimRight(l);
      assert r[0] == l[0] && l[0] == s[|s| - |l|];
    }
  }

  /** `s.strip().startswith(c)` for a non-whitespace `c`. */
  predicate StrippedStartsWith(s: string, c: char)
  {
    var t := Trim(s); |t| > 0 && t[0] == c
  }

  /** ASCII lower-casing, which is what SQLite's `lower()` does. */
  function LowerChar(c: char): char
  {
    if 'A' <= c <= 'Z' then (c as int + 32) as char else c
  }

  function Lower(s: string): (r: string)
    ensures |r| == |s| && forall i :: 0 <= i < |s| ==> r[i] == LowerChar(s[i])
  {
    seq(|s|, i requires 0 <= i < |s| => LowerChar(s[i]))
  }

  /** Lower-casing twice is lower-casing once. */
  lemma LowerIdempotent(s: string)
    ensures Lower(Lower(s)) == Lower(s)
  {
  }

  predicate IsPrefix(p: string, s: string)
  {
    |p| <= |s| && s[..|p|] == p
  }

  predicate EndsWith(s: string, suffix: string)
  {
    |suffix| <= |s| && s[|s| - |suffix|..] == suffix
  }

  /** `needle` occurs in `hay` starting at index `i`. */
  predicate OccursAt(hay: string, needle: string, i: int)
  {
    0 <= i && i + |needle| <= |hay| && hay[i..i + |needle|] == needle
  }

  /** `needle in hay`: some window of `hay` equals `needle`. */
  function Contains(hay: string, needle: string): (r: bool)
    ensures r <==> exists i :: OccursAt(hay, needle, i)
    decreases |hay|
  {
    if IsPrefix(needle, hay) then
      assert OccursAt(hay, needle, 0);
      true
    else if |hay| <= |needle| then
      false
    else
      var r := Contains(hay[1..], needle);
      assert r ==> exists i :: OccursAt(hay, needle, i) by {
        if r {
          var i :| OccursAt(hay[1..], needle, i);
          assert hay[i + 1..i + 1 + |needle|] == hay[1..][i..i + |needle|];
          assert OccursAt(hay, needle, i + 1);
        }
      }
      assert (exists i :: OccursAt(hay, needle, i)) ==> r by {
        if exists i :: OccursAt(hay, needle, i) {
          var i :| OccursAt(hay, needle, i);
          assert i != 0;
          assert hay[1..][i - 1..i - 1 + |needle|] == hay[i..i + |needle|];
          assert OccursAt(hay[1..], needle, i - 1);
        }
      }
      r
  }

  /** The index of the first line break in `s`, or `|s|` when there is none. */
  function FirstBreak(s: string): (i: nat)
    ensures i <= |s| && NoLineBreak(s[..i]) && (i < |s| ==> IsLineBreak(s[i]))
  {
    if |s| == 0 || IsLineBreak(s[0]) then 0 else 1 + FirstBreak(s[1..])
  }

  /** `s` cut at every line-break character: the pieces between the breaks, in order.
      Python's `splitlines` treats "\r\n" as one break, drops the piece after a final
      break, and splits the empty text into no pieces at all, where this gives `[""]`; all
      three differences only produce empty pieces. */
  function SplitLines(s: string): (pieces: seq<string>)
    ensures |pieces| >= 1
    ensures forall k :: 0 <= k < |pieces| ==> NoLineBreak(pieces[k])
    decreases |s|
  {
    var i := FirstBreak(s);
    if i == |s| then [s] else [s[..i]] + SplitLines(s[i + 1..])
  }

  /** `'\n'.join(xs)`. */
  function JoinLines(xs: seq<string>): string
  {
    if |xs| == 0 then ""
    else if |xs| == 1 then xs[0]
    else xs[0] + "\n" + JoinLines(xs[1..])
  }

  lemma {:induction false} FirstBreakAfter(x: string, t: string)
    requires NoLineBreak(x)
    ensures FirstBreak(x + t) == |x| + FirstBreak(t)
    decreases |x|
  {
    if |x| > 0 {
      assert (x + t)[1..] == x[1..] + t;
      FirstBreakAfter(x[1..], t);
    } else {
      assert x + t == t;
    }
  }

  lemma SplitLinesOne(x: string)
    requires NoLineBreak(x)
    ensures SplitLines(x) == [x]
  {
    FirstBreakAfter(x, "");
    assert x + "" == x;
  }

  /** Whatever the line-break character, the text before the first break is the first piece
      and the rest is split again. With `SplitLinesOne` this pins `SplitLines` down for every
      input: its pieces are the input's lines, in order. */
  lemma SplitLinesCons(x: string, b: char, rest: string)
    requires NoLineBreak(x) && IsLineBreak(b)
    ensures SplitLines(x + [b] + rest) == [x] + SplitLines(rest)
  {
    var s := x + [b] + rest;
    assert s == x + ([b] + rest);
    FirstBreakAfter(x, [b] + rest);
    assert FirstBreak(s) == |x|;
    assert s[..|x|] == x;
    assert s[|x| + 1..] == rest;
  }

  /** Splitting a `'\n'`-join of break-free strings gives the strings back. */
  lemma {:induction false} SplitJoin(xs: seq<string>)
    requires |xs| >= 1
    requires forall x :: x in xs ==> NoLineBreak(x)
    ensures SplitLines(JoinLines(xs)) == xs
    decreases |xs|
  {
    if |xs| == 1 {
      SplitLinesOne(xs[0]);
    } else {
      SplitLinesCons(xs[0], '\n', JoinLines(xs[1..]));
      assert JoinLines(xs) == xs[0] + ['\n'] + JoinLines(xs[1..]);
      SplitJoin(xs[1..]);
      assert xs == [xs[0]] + xs[1..];
    }
  }

  /** The first character of a non-empty join is that of its first element,
      and the last character that of its last element. */
  lemma {:induction false} JoinLinesEnds(xs: seq<string>)
    requires |xs| >= 1 && forall k :: 0 <= k < |xs| ==> xs[k] != []
    ensures var j := JoinLines(xs); |j| > 0 && j[0] == xs[0][0] && j[|j| - 1] == xs[|xs| - 1][|xs[|xs| - 1]| - 1]
    decreases |xs|
  {
    if |xs| > 1 {
      JoinLinesEnds(xs[1..]);
    }
  }
}
