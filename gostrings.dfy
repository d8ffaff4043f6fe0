/**
 * The parts of Go's `strings` package that the dictionary code relies on,
 * for a single-character separator: `Split`, `Join` and `TrimSpace`.
 */
module GoStrings {

  /** Number of occurrences of `c` in `s`. */
  function Occurrences(s: string, c: char): nat
  {
    if s == [] then 0 else (if s[0] == c then 1 else 0) + Occurrences(s[1..], c)
  }

  /** `strings.Join`: the parts with `sep` between consecutive ones. */
  function Join(parts: seq<string>, sep: char): string
  {
    if |parts| == 0 then ""
    else if |parts| == 1 then parts[0]
    else parts[0] + [sep] + Join(parts[1..], sep)
  }

  /**
   * `strings.Split(s, sep)`: the pieces of `s` between occurrences of `sep`.
   * There is always one more piece than separators (so `Split("")` is `[""]`)
   * and no piece holds the separator; joining the pieces gives `s` back
   * (JoinSplit), and these facts determine the pieces uniquely (SplitJoin).
   */
  function Split(s: string, sep: char): (r: seq<string>)
    ensures |r| == Occurrences(s, sep) + 1
    ensures forall p :: p in r ==> sep !in p
  {
    if s == [] then [""]
    else
      var rest := Split(s[1..], sep);
      if s[0] == sep then
        [""] + rest
      else
        var first := [s[0]] + rest[0];
        assert forall p :: p in [first] + rest[1..] ==> p == first || p in rest;
        [first] + rest[1..]
  }

  /** Round trip: joining the pieces of a split with the separator gives the string back. */
  lemma {:induction false} JoinSplit(s: string, sep: char)
    ensures Join(Split(s, sep), sep) == s
  {
    if s != [] {
      var rest := Split(s[1..], sep);
      JoinSplit(s[1..], sep);
      if s[0] == sep {
        assert ([""] + rest)[1..] == rest;
      } else {
        var first := [s[0]] + rest[0];
        var r := [first] + rest[1..];
        assert r[1..] == rest[1..];
        assert |rest| > 1 ==> Join(rest, sep) == rest[0] + [sep] + Join(rest[1..], sep);
        assert s == [s[0]] + s[1..];
      }
    }
  }

  /** Splitting a separator-free prefix glues it onto the first piece of the rest. */
  lemma {:induction false} SplitPrefix(a: string, b: string, sep: char)
    requires sep !in a
    ensures Split(a + b, sep) == [a + Split(b, sep)[0]] + Split(b, sep)[1..]
  {
    var pieces := Split(b, sep);
    if a == [] {
      assert a + b == b;
      assert a + pieces[0] == pieces[0];
      assert pieces == [pieces[0]] + pieces[1..];
    } else {
      assert (a + b)[0] == a[0];
      assert (a + b)[1..] == a[1..] + b;
      SplitPrefix(a[1..], b, sep);
      assert [a[0]] + (a[1..] + Split(b, sep)[0]) == a + Split(b, sep)[0];
    }
  }

  /** Splitting at a leading separator-free part gives that part, then the rest's pieces. */
  lemma {:induction false} SplitAtSeparator(a: string, rest: string, sep: char)
    requires sep !in a
    ensures Split(a + [sep] + rest, sep) == [a] + Split(rest, sep)
  {
    var b := [sep] + rest;
    assert b[0] == sep && b[1..] == rest;
    assert Split(b, sep) == [""] + Split(rest, sep);
    SplitPrefix(a, b, sep);
    assert a + [sep] + rest == a + b;
    assert a + "" == a;
    assert ([""] + Split(rest, sep))[1..] == Split(rest, sep);
  }

  /** Round trip: splitting joined separator-free parts gives the parts back. */
  lemma {:induction false} SplitJoin(parts: seq<string>, sep: char)
    requires |parts| >= 1
    requires forall p :: p in parts ==> sep !in p
    ensures Split(Join(parts, sep), sep) == parts
  {
    if |parts| == 1 {
      SplitPrefix(parts[0], "", sep);
      assert parts[0] + "" == parts[0];
    } else {
      var rest := Join(parts[1..], sep);
      assert Join(parts, sep) == parts[0] + [sep] + rest;
      SplitJoin(parts[1..], sep);
      SplitAtSeparator(parts[0], rest, sep);
      assert parts == [parts[0]] + parts[1..];
    }
  }

  /** Joining with one more part appends the separator and that part. */
  lemma {:induction false} JoinAppend(parts: seq<string>, x: string, sep: char)
    requires |parts| >= 1
    ensures Join(parts + [x], sep) == Join(parts, sep) + [sep] + x
  {
    if |parts| > 1 {
      JoinAppend(parts[1..], x, sep);
      assert (parts + [x])[1..] == parts[1..] + [x];
    }
  }

  /** A character other than the separator is in the join only if some part holds it. */
  lemma {:induction false} JoinExcludes(parts: seq<string>, sep: char, c: char)
    requires c != sep
    requires forall p :: p in parts ==> c !in p
    ensures c !in Join(parts, sep)
  {
    if |parts| > 1 {
      JoinExcludes(parts[1..], sep, c);
    }
  }

  /** Joining three parts. */
  lemma JoinThree(a: string, b: string, c: string, sep: char)
    ensures Join([a, b, c], sep) == a + [sep] + b + [sep] + c
  {
    assert [a, b, c][1..] == [b, c];
    assert [b, c][1..] == [c];
    assert Join([b, c], sep) == b + [sep] + c;
  }

  /** The join starts with the first part's first character. */
  lemma JoinFirst(parts: seq<string>, sep: char)
    requires |parts| >= 1 && parts[0] != []
    ensures var j := Join(parts, sep); j != [] && j[0] == parts[0][0]
  {
  }

  /** The join ends with the last part's last character. */
  lemma {:induction false} JoinLast(parts: seq<string>, sep: char)
    requires |parts| >= 1 && parts[|parts| - 1] != []
    ensures var j := Join(parts, sep);
      j != [] && j[|j| - 1] == parts[|parts| - 1][|parts[|parts| - 1]| - 1]
  {
    if |parts| > 1 {
      JoinLast(parts[1..], sep);
    }
  }

  /** Go's `unicode.IsSpace`: the Unicode White_Space characters. */
  predicate IsSpace(c: char)
  {
    || c == ' '
    || '\t' <= c <= '\r'
    || c == '\U{0085}' || c == '\U{00A0}' || c == '\U{1680}'
    || '\U{2000}' <= c <= '\U{200A}'
    || c == '\U{2028}' || c == '\U{2029}' || c == '\U{202F}' || c == '\U{205F}' || c == '\U{3000}'
  }

  /** Neither the first nor the last character is white space. */
  predicate NoEdgeSpace(s: string)
  {
    s == [] || (!IsSpace(s[0]) && !IsSpace(s[|s| - 1]))
  }

  /** Drops trailing white space: the result is the longest prefix not ending in it. */
  function TrimRight(s: string): (r: string)
    ensures |r| <= |s| && r == s[..|r|]
    ensures forall k :: |r| <= k < |s| ==> IsSpace(s[k])
    ensures r == [] || !IsSpace(r[|r| - 1])
  {
    if s != [] && IsSpace(s[|s| - 1]) then TrimRight(s[..|s| - 1]) else s
  }

  /** Drops leading white space: the result is the longest suffix not starting with it. */
  function TrimLeft(s: string): (r: string)
    ensures |r| <= |s| && r == s[|s| - |r|..]
    ensures forall k :: 0 <= k < |s| - |r| ==> IsSpace(s[k])
    ensures r == [] || !IsSpace(r[0])
  {
    if s != [] && IsSpace(s[0]) then TrimLeft(s[1..]) else s
  }

  /** `r` sits at index `i` of `s`, with only white space before and after it. */
  predicate SpaceAround(s: string, i: int, r: string)
  {
    && 0 <= i <= |s| - |r|
    && r == s[i..i + |r|]
    && (forall k :: 0 <= k < i ==> IsSpace(s[k]))
    && (forall k :: i + |r| <= k < |s| ==> IsSpace(s[k]))
  }

  /**
   * `strings.TrimSpace`: `s` with its leading and trailing white space
   * removed. The result has no white space at either end, and a string
   * without white space at its ends is returned unchanged; TrimSpaceIsSlice
   * shows that only white space at the two ends is removed.
   */
  function TrimSpace(s: string): (r: string)
    ensures NoEdgeSpace(r)
    ensures NoEdgeSpace(s) ==> r == s
  {
    var t := TrimRight(s);
    var r := TrimLeft(t);
    TrimKeepsEnds(s, t, r);
    TrimUntouched(s, t, r);
    r
  }

  /** Trimming both ends leaves no white space at either end. */
  lemma TrimKeepsEnds(s: string, t: string, r: string)
    requires t == TrimRight(s) && r == TrimLeft(t)
    ensures NoEdgeSpace(r)
  {
    if r != [] {
      assert r[|r| - 1] == t[|t| - 1];
    }
  }

  /** A string without white space at its ends is not trimmed. */
  lemma TrimUntouched(s: string, t: string, r: string)
    requires t == TrimRight(s) && r == TrimLeft(t)
    ensures NoEdgeSpace(s) ==> r == s
  {
    if NoEdgeSpace(s) {
      assert t == s;
    }
  }

  /**
   * A suffix `r` of a prefix `t` of `s`, where only white space follows `t`
   * in `s` and only white space precedes `r` in `t`, is a slice of `s` with
   * only white space around it.
   */
  lemma SliceBetweenSpaces(s: string, t: string, r: string)
    requires |t| <= |s| && t == s[..|t|]
    requires forall k :: |t| <= k < |s| ==> IsSpace(s[k])
    requires |r| <= |t| && r == t[|t| - |r|..]
    requires forall k :: 0 <= k < |t| - |r| ==> IsSpace(t[k])
    ensures SpaceAround(s, |t| - |r|, r)
  {
    var i := |t| - |r|;
    assert r == s[i..i + |r|] by {
      forall j | 0 <= j < |r| ensures r[j] == s[i + j] {
        assert r[j] == t[i + j];
        assert t[i + j] == s[i + j];
      }
    }
    assert forall k :: 0 <= k < i ==> IsSpace(s[k]) by {
      forall k | 0 <= k < i ensures IsSpace(s[k]) {
        assert IsSpace(t[k]) && t[k] == s[k];
      }
    }
  }

  /**
   * TrimSpace removes white space at the two ends and nothing else: its
   * result is a slice of `s` with only white space before and after it.
   */
  lemma TrimSpaceIsSlice(s: string)
    ensures exists i :: SpaceAround(s, i, TrimSpace(s))
  {
    var t := TrimRight(s);
    var r := TrimLeft(t);
    assert TrimSpace(s) == r;
    SliceBetweenSpaces(s, t, r);
  }
}
