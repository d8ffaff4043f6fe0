/**
 * Go's string order and `sort.Strings`. Go compares strings byte by byte;
 * on UTF-8 text that is the same as comparing code points one by one,
 * with a proper prefix ordered first. So "1" < "10" < "2" < "verb".
 */
module StringOrder {

  /** Strict lexicographic order on code points. */
  predicate Less(a: string, b: string)
  {
    if a == [] then b != []
    else b != [] && (a[0] < b[0] || (a[0] == b[0] && Less(a[1..], b[1..])))
  }

  predicate LessEq(a: string, b: string)
  {
    a == b || Less(a, b)
  }

  lemma {:induction false} LessIrreflexive(a: string)
    ensures !Less(a, a)
  {
    if a != [] {
      LessIrreflexive(a[1..]);
    }
  }

  lemma {:induction false} LessTransitive(a: string, b: string, c: string)
    requires Less(a, b) && Less(b, c)
    ensures Less(a, c)
  {
    if a != [] && a[0] == b[0] && b[0] == c[0] {
      LessTransitive(a[1..], b[1..], c[1..]);
    }
  }

  /** Any two different strings are ordered one way or the other. */
  lemma {:induction false} LessTotal(a: string, b: string)
    requires a != b
    ensures Less(a, b) || Less(b, a)
  {
    if a != [] && b != [] && a[0] == b[0] {
      assert a == [a[0]] + a[1..] && b == [b[0]] + b[1..];
      LessTotal(a[1..], b[1..]);
    }
  }

  lemma LessAsymmetric(a: string, b: string)
    requires Less(a, b)
    ensures !Less(b, a)
  {
    if Less(b, a) {
      LessTransitive(a, b, a);
      LessIrreflexive(a);
    }
  }

  lemma LessEqTransitive(a: string, b: string, c: string)
    requires LessEq(a, b) && LessEq(b, c)
    ensures LessEq(a, c)
  {
    if a != b && b != c {
      LessTransitive(a, b, c);
    }
  }

  /** Every pair of elements is in order (duplicates allowed). */
  ghost predicate Ascending(s: seq<string>)
  {
    forall i, j :: 0 <= i < j < |s| ==> LessEq(s[i], s[j])
  }

  /** Every pair of elements is strictly in order, so there are no duplicates. */
  ghost predicate StrictlyAscending(s: seq<string>)
  {
    forall i, j :: 0 <= i < j < |s| ==> Less(s[i], s[j])
  }

  /** `s` lists exactly the members of `S`, in strictly ascending order. */
  ghost predicate IsListing(s: seq<string>, S: set<string>)
  {
    StrictlyAscending(s) && forall x :: x in s <==> x in S
  }

  /** A head no greater than any element of an ascending tail keeps the sequence ascending. */
  lemma ConsAscending(h: string, rest: seq<string>)
    requires Ascending(rest)
    requires forall k :: 0 <= k < |rest| ==> LessEq(h, rest[k])
    ensures Ascending([h] + rest)
  {
    var r := [h] + rest;
    forall i, j | 0 <= i < j < |r| ensures LessEq(r[i], r[j]) {
      assert r[j] == rest[j - 1];
      if i > 0 { assert r[i] == rest[i - 1]; }
    }
  }

  /** A string no greater than the head of an ascending sequence is no greater than any element. */
  lemma HeadIsLeast(s: seq<string>, x: string)
    requires Ascending(s) && (s == [] || LessEq(x, s[0]))
    ensures forall j :: 0 <= j < |s| ==> LessEq(x, s[j])
  {
    forall j | 0 < j < |s| ensures LessEq(x, s[j]) { LessEqTransitive(x, s[0], s[j]); }
  }

  /** Every element of a rearrangement of an ascending tail plus `x` is at least the head. */
  lemma HeadBoundsRest(s: seq<string>, x: string, rest: seq<string>)
    requires Ascending(s) && s != [] && LessEq(s[0], x)
    requires multiset(rest) == multiset(s[1..]) + multiset{x}
    ensures forall k :: 0 <= k < |rest| ==> LessEq(s[0], rest[k])
  {
    forall k | 0 <= k < |rest| ensures LessEq(s[0], rest[k]) {
      assert rest[k] in multiset(rest);
      if rest[k] != x {
        assert rest[k] in multiset(s[1..]);
        var j :| 0 <= j < |s[1..]| && s[1..][j] == rest[k];
        assert s[j + 1] == rest[k];
      }
    }
  }

  /** Places `x` in front of the first element it does not exceed. */
  function InsertSorted(s: seq<string>, x: string): (r: seq<string>)
    requires Ascending(s)
    ensures Ascending(r)
    ensures multiset(r) == multiset(s) + multiset{x}
  {
    if s == [] || LessEq(x, s[0]) then
      HeadIsLeast(s, x);
      ConsAscending(x, s);
      [x] + s
    else
      var rest := InsertSorted(s[1..], x);
      LessTotal(x, s[0]);
      HeadBoundsRest(s, x, rest);
      ConsAscending(s[0], rest);
      assert s == [s[0]] + s[1..];
      [s[0]] + rest
  }

  /**
   * `sort.Strings`: the result is ascending in Go's string order and holds
   * the same strings as many times as the input does.
   */
  method SortStrings(a: seq<string>) returns (r: seq<string>)
    ensures Ascending(r)
    ensures multiset(r) == multiset(a)
  {
    r := [];
    for i := 0 to |a|
      invariant Ascending(r)
      invariant multiset(r) == multiset(a[..i])
    {
      assert a[..i + 1] == a[..i] + [a[i]];
      r := InsertSorted(r, a[i]);
    }
    assert a[..|a|] == a;
  }

  /** Adding `x` to a set whose least element is `m`: the smaller of the two is least. */
  lemma LeastStep(S: set<string>, x: string, m: string)
    requires m in S && forall y :: y in S ==> LessEq(m, y)
    ensures var w := if LessEq(x, m) then x else m;
      w in S + {x} && forall y :: y in S + {x} ==> LessEq(w, y)
  {
    if LessEq(x, m) {
      forall y | y in S + {x} ensures LessEq(x, y) {
        if y != x { LessEqTransitive(x, m, y); }
      }
    } else {
      LessTotal(x, m);
    }
  }

  /** A least element of a non-empty set exists. */
  lemma {:induction false} LeastExists(S: set<string>)
    requires S != {}
    ensures exists m :: m in S && forall y :: y in S ==> LessEq(m, y)
  {
    var x :| x in S;
    if S == {x} {
      assert x in S && forall y :: y in S ==> LessEq(x, y);
    } else {
      var S' := S - {x};
      LeastExists(S');
      var m :| m in S' && forall y :: y in S' ==> LessEq(m, y);
      LeastStep(S', x, m);
      assert S' + {x} == S;
    }
  }

  ghost function Least(S: set<string>): (m: string)
    requires S != {}
    ensures m in S && forall y :: y in S ==> LessEq(m, y)
  {
    LeastExists(S);
    var m :| m in S && forall y :: y in S ==> LessEq(m, y);
    m
  }

  /** The members of `S` in ascending order: a listing of `S`, one entry per member. */
  ghost function Listing(S: set<string>): (r: seq<string>)
    ensures IsListing(r, S)
    ensures |r| == |S|
    decreases |S|
  {
    if S == {} then []
    else
      var m := Least(S);
      var rest := Listing(S - {m});
      assert forall j :: 0 <= j < |rest| ==> Less(m, rest[j]) by {
        forall j | 0 <= j < |rest| ensures Less(m, rest[j]) {
          assert rest[j] in S - {m};
        }
      }
      [m] + rest
  }

  /** A set has only one listing. */
  lemma {:induction false} ListingUnique(a: seq<string>, b: seq<string>, S: set<string>)
    requires IsListing(a, S) && IsListing(b, S)
    ensures a == b
    decreases |a|
  {
    assert b != [] ==> b[0] in b;
    if a == [] {
      assert forall x :: x !in S;
    } else {
      assert a[0] in S;
      assert b != [] by { assert a[0] in b; }
      if a[0] != b[0] {
        assert a[0] in b;
        var k :| 0 <= k < |b| && b[k] == a[0];
        assert b[0] in a;
        var l :| 0 <= l < |a| && a[l] == b[0];
        assert Less(b[0], a[0]) && Less(a[0], b[0]);
        LessAsymmetric(a[0], b[0]);
      }
      TailIsListing(a, S);
      TailIsListing(b, S);
      ListingUnique(a[1..], b[1..], S - {a[0]});
      assert a == [a[0]] + a[1..] && b == [b[0]] + b[1..];
    }
  }

  lemma TailIsListing(a: seq<string>, S: set<string>)
    requires IsListing(a, S) && a != []
    ensures IsListing(a[1..], S - {a[0]})
  {
    forall x ensures x in a[1..] <==> x in S - {a[0]} {
      if x in a[1..] {
        var j :| 0 <= j < |a[1..]| && a[1..][j] == x;
        assert Less(a[0], a[j + 1]);
        LessIrreflexive(x);
      }
      if x in S - {a[0]} {
        var j :| 0 <= j < |a| && a[j] == x;
        assert j != 0;
        assert a[1..][j - 1] == x;
      }
    }
  }

  /** Two equal elements at different positions occur at least twice. */
  lemma RepeatedTwice(s: seq<string>, i: nat, j: nat)
    requires i < j < |s| && s[i] == s[j]
    ensures multiset(s)[s[i]] >= 2
  {
    assert s == s[..j] + s[j..];
    assert s[i] in s[..j];
    assert s[j] in s[j..];
  }

  /**
   * What `sort.Strings` produces from the members of a set is the set's listing:
   * an ascending sequence with the set's members, each once, is unique.
   */
  lemma {:induction false} SortedIsListing(s: seq<string>, S: set<string>)
    requires Ascending(s)
    requires multiset(s) == multiset(S)
    ensures s == Listing(S)
  {
    forall i, j | 0 <= i < j < |s| ensures Less(s[i], s[j]) {
      if s[i] == s[j] {
        RepeatedTwice(s, i, j);
        assert false;
      }
    }
    forall x ensures x in s <==> x in S {
      assert x in s <==> x in multiset(s);
    }
    ListingUnique(s, Listing(S), S);
  }
}
