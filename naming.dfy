/** Canonical names of state subsets: `FA::set_to_string` and the facts that make
    a subset's name a faithful, order-independent serialisation of its contents. */
module Naming {

  /** `std::string`'s `operator<`: lexicographic on characters, a proper prefix first. */
  predicate Precedes(a: string, b: string)
  {
    if a == [] then b != []
    else b != [] && (a[0] < b[0] || (a[0] == b[0] && Precedes(a[1..], b[1..])))
  }

  lemma {:induction false} PrecedesIrreflexive(a: string)
    ensures !Precedes(a, a)
  {
    if a != [] {
      PrecedesIrreflexive(a[1..]);
    }
  }

  lemma {:induction false} PrecedesAsymmetric(a: string, b: string)
    requires Precedes(a, b)
    ensures !Precedes(b, a)
  {
    if a != [] && b != [] && a[0] == b[0] {
      PrecedesAsymmetric(a[1..], b[1..]);
    }
  }

  lemma {:induction false} PrecedesTransitive(a: string, b: string, c: string)
    requires Precedes(a, b) && Precedes(b, c)
    ensures Precedes(a, c)
  {
    if a != [] && a[0] == b[0] && b[0] == c[0] {
      PrecedesTransitive(a[1..], b[1..], c[1..]);
    }
  }

  lemma {:induction false} PrecedesTotal(a: string, b: string)
    requires a != b
    ensures Precedes(a, b) || Precedes(b, a)
  {
    if a != [] && b != [] && a[0] == b[0] {
      assert a == [a[0]] + a[1..] && b == [b[0]] + b[1..];
      PrecedesTotal(a[1..], b[1..]);
    }
  }

  /** `m` is the first element of `s` in `std::set<std::string>` order. */
  predicate IsLeast(m: string, s: set<string>)
  {
    m in s && forall x | x in s && x != m :: Precedes(m, x)
  }

  lemma {:induction false} LeastExists(s: set<string>)
    requires s != {}
    ensures exists m :: IsLeast(m, s)
    decreases |s|
  {
    var x :| x in s;
    var rest := s - {x};
    if rest == {} {
      assert s == {x};
      assert IsLeast(x, s);
    } else {
      LeastExists(rest);
      var m :| IsLeast(m, rest);
      if Precedes(m, x) {
        assert IsLeast(m, s);
      } else {
        PrecedesTotal(m, x);
        forall y | y in s && y != x
          ensures Precedes(x, y)
        {
          if y != m {
            PrecedesTransitive(x, m, y);
          }
        }
        assert IsLeast(x, s);
      }
    }
  }

  lemma LeastUnique(s: set<string>)
    ensures forall m, m' | IsLeast(m, s) && IsLeast(m', s) :: m == m'
  {
    forall m, m' | IsLeast(m, s) && IsLeast(m', s)
      ensures m == m'
    {
      if m != m' {
        PrecedesAsymmetric(m, m');
      }
    }
  }

  /** Strictly increasing in `Precedes` order, as a `std::set<std::string>` iterates. */
  predicate Ascending(xs: seq<string>)
  {
    forall i, j | 0 <= i < j < |xs| :: Precedes(xs[i], xs[j])
  }

  /** The elements of `s` in the order a `std::set<std::string>` visits them. */
  function Sorted(s: set<string>): (xs: seq<string>)
    ensures Ascending(xs) && |xs| == |s|
    ensures forall i | 0 <= i < |xs| :: xs[i] in s
    ensures forall x | x in s :: x in xs
    decreases |s|
  {
    if s == {} then []
    else
      LeastExists(s);
      LeastUnique(s);
      var m :| IsLeast(m, s);
      var tail := Sorted(s - {m});
      assert forall j | 0 <= j < |tail| :: Precedes(m, tail[j]);
      [m] + tail
  }

  /** Each element followed by a comma: what the loop of `set_to_string` builds with `+=`. */
  function Terminated(xs: seq<string>): string
  {
    if xs == [] then "" else xs[0] + "," + Terminated(xs[1..])
  }

  /** `FA::set_to_string`: "" for the empty set, the element itself for a singleton,
      otherwise "{" + the elements in sorted order, comma-separated, + "}" (the loop
      appends "x," per element and `pop_back` removes the last comma). */
  function SetToString(s: set<string>): (name: string)
    ensures s == {} ==> name == ""
    ensures |s| == 1 ==> s == {name}
    ensures |s| >= 2 ==> |name| >= 2 && name[0] == '{' && name[|name| - 1] == '}'
  {
    if s == {} then ""
    else if |s| == 1 then Sorted(s)[0]
    else
      var body := "{" + Terminated(Sorted(s));
      body[..|body| - 1] + "}"
  }

  /** The elements separated (not terminated) by commas. */
  function Join(xs: seq<string>): string
    requires xs != []
  {
    if |xs| == 1 then xs[0] else xs[0] + "," + Join(xs[1..])
  }

  lemma {:induction false} TerminatedIsJoinedPlusComma(xs: seq<string>)
    requires xs != []
    ensures Terminated(xs) == Join(xs) + ","
  {
    if |xs| > 1 {
      TerminatedIsJoinedPlusComma(xs[1..]);
    }
  }

  /** A name from which a subset's name can be decoded: no comma (the separator)
      and no opening brace (the marker of a multi-element name). */
  predicate Plain(x: string)
  {
    ',' !in x && '{' !in x
  }

  function FirstComma(s: string): (i: nat)
    requires ',' in s
    ensures i < |s| && s[i] == ',' && ',' !in s[..i]
  {
    if s[0] == ',' then 0
    else
      assert ',' in s[1..] by {
        var k :| 0 <= k < |s| && s[k] == ',';
        assert s[1..][k - 1] == ',';
      }
      var i := 1 + FirstComma(s[1..]);
      assert s[..i] == [s[0]] + s[1..][..i - 1];
      i
  }

  /** The pieces of `s` between commas. */
  function Split(s: string): (pieces: seq<string>)
    ensures pieces != []
    decreases |s|
  {
    if ',' !in s then [s]
    else
      var i := FirstComma(s);
      [s[..i]] + Split(s[i + 1..])
  }

  lemma {:induction false} SplitJoin(xs: seq<string>)
    requires xs != []
    requires forall i | 0 <= i < |xs| :: ',' !in xs[i]
    ensures Split(Join(xs)) == xs
  {
    if |xs| > 1 {
      var s := Join(xs);
      var head := xs[0];
      var rest := Join(xs[1..]);
      assert s == head + "," + rest;
      assert s[..|head|] == head by {
        PrefixOfConcat(head, "," + rest);
      }
      assert s[|head|] == ',';
      assert s[|head| + 1..] == rest by {
        SuffixOfConcat(head + ",", rest);
      }
      var i := FirstComma(s);
      assert i == |head|;
      SplitJoin(xs[1..]);
    }
  }

  /** Reads a subset back from its name: the inverse of `SetToString`. */
  function ParseName(name: string): set<string>
  {
    if name == "" then {}
    else if name[0] == '{' && |name| >= 2 then
      var pieces := Split(name[1..|name| - 1]);
      set i | 0 <= i < |pieces| :: pieces[i]
    else {name}
  }

  /** The name of a set with at least two elements, written with `Join`. */
  lemma NameOfSeveral(s: set<string>)
    requires |s| >= 2
    ensures SetToString(s) == "{" + Join(Sorted(s)) + "}"
  {
    ClosedTerminated(Sorted(s));
  }

  /** Dropping the last comma of the terminated list and closing the brace gives
      the joined list in braces. */
  lemma ClosedTerminated(xs: seq<string>)
    requires xs != []
    ensures var body := "{" + Terminated(xs); body[..|body| - 1] + "}" == "{" + Join(xs) + "}"
  {
    TerminatedIsJoinedPlusComma(xs);
    var p := "{" + Join(xs);
    var body := "{" + Terminated(xs);
    assert body == p + ",";
    assert |body| == |Join(xs)| + 2;
    PrefixOfConcat(p, ",");
  }

  /** The first `|p|` characters of `p + q` are `p`. */
  lemma PrefixOfConcat(p: string, q: string)
    ensures (p + q)[..|p|] == p
  {
  }

  /** What follows the first `|p|` characters of `p + q` is `q`. */
  lemma SuffixOfConcat(p: string, q: string)
    ensures (p + q)[|p|..] == q
  {
  }

  /** Decoding the name gives back the subset: the name is a faithful serialisation. */
  lemma NameRoundTrip(s: set<string>)
    requires forall x | x in s :: Plain(x) && x != ""
    ensures ParseName(SetToString(s)) == s
  {
    if |s| == 1 {
      var x := SetToString(s);
      assert s == {x};
      assert x[0] != '{' by { assert '{' !in x; }
    } else if |s| >= 2 {
      var xs := Sorted(s);
      NameOfSeveral(s);
      var name := SetToString(s);
      assert name[1..|name| - 1] == Join(xs);
      SplitJoin(xs);
      assert (set i | 0 <= i < |xs| :: xs[i]) == s;
    }
  }

  /** Two subsets of plain, non-empty names have the same name only if they are equal. */
  lemma NameInjective(s: set<string>, t: set<string>)
    requires forall x | x in s + t :: Plain(x) && x != ""
    requires SetToString(s) == SetToString(t)
    ensures s == t
  {
    NameRoundTrip(s);
    NameRoundTrip(t);
  }

  /** An ascending listing has no repetitions. */
  lemma {:induction false} AscendingLength(xs: seq<string>)
    requires Ascending(xs)
    ensures |(set x | x in xs)| == |xs|
  {
    if xs != [] {
      AscendingLength(xs[1..]);
      assert (set x | x in xs) == {xs[0]} + (set x | x in xs[1..]);
      forall k | 0 <= k < |xs| - 1
        ensures xs[1..][k] != xs[0]
      {
        assert Precedes(xs[0], xs[k + 1]);
        PrecedesIrreflexive(xs[0]);
      }
      assert xs[0] !in (set x | x in xs[1..]);
    }
  }

  lemma {:induction false} AscendingUniqueOfLength(xs: seq<string>, ys: seq<string>)
    requires Ascending(xs) && Ascending(ys) && |xs| == |ys|
    requires forall x :: x in xs <==> x in ys
    ensures xs == ys
  {
    if xs != [] {
      assert xs[0] in ys && ys[0] in xs;
      if xs[0] != ys[0] {
        var i :| 0 <= i < |ys| && ys[i] == xs[0];
        var j :| 0 <= j < |xs| && xs[j] == ys[0];
        assert i > 0 && j > 0;
        PrecedesAsymmetric(ys[0], ys[i]);
      }
      forall x
        ensures x in xs[1..] <==> x in ys[1..]
      {
        if x in xs[1..] {
          var k :| 0 <= k < |xs| - 1 && xs[1..][k] == x;
          assert Precedes(xs[0], xs[k + 1]);
          PrecedesIrreflexive(x);
          assert x in ys && x != ys[0];
          var m :| 0 <= m < |ys| && ys[m] == x;
          assert ys[1..][m - 1] == x;
        }
        if x in ys[1..] {
          var k :| 0 <= k < |ys| - 1 && ys[1..][k] == x;
          assert Precedes(ys[0], ys[k + 1]);
          PrecedesIrreflexive(x);
          assert x in xs && x != xs[0];
          var m :| 0 <= m < |xs| && xs[m] == x;
          assert xs[1..][m - 1] == x;
        }
      }
      AscendingUniqueOfLength(xs[1..], ys[1..]);
    }
  }

  /** Two ascending listings of the same elements are equal. */
  lemma AscendingUnique(xs: seq<string>, ys: seq<string>)
    requires Ascending(xs) && Ascending(ys)
    requires forall x :: x in xs <==> x in ys
    ensures xs == ys
  {
    AscendingLength(xs);
    AscendingLength(ys);
    assert (set x | x in xs) == (set x | x in ys);
    AscendingUniqueOfLength(xs, ys);
  }

  /** The name of a set of two or more elements lists them in ascending order,
      whatever order they were inserted in. */
  lemma NameOfListing(s: set<string>, xs: seq<string>)
    requires |s| >= 2 && Ascending(xs)
    requires forall x :: x in xs <==> x in s
    ensures SetToString(s) == "{" + Join(xs) + "}"
  {
    AscendingUnique(xs, Sorted(s));
    NameOfSeveral(s);
  }
}
