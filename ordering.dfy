/** The orders in which the object-file writer visits `std::set` and
    `std::map` contents: strings by `std::string::operator<` (byte-wise,
    shorter prefix first) and addresses numerically. */
module Ordering {
  import opened Words

  /** `a < b` for `std::string`: the first differing character decides,
      and a proper prefix comes first. */
  predicate StrLt(a: string, b: string)
    decreases |a|
  {
    if a == [] then b != []
    else b != [] && (a[0] < b[0] || (a[0] == b[0] && StrLt(a[1..], b[1..])))
  }

  predicate StrLe(a: string, b: string) { a == b || StrLt(a, b) }

  lemma {:induction false} StrLtIrreflexive(a: string)
    ensures !StrLt(a, a)
    decreases |a|
  {
    if a != [] {
      StrLtIrreflexive(a[1..]);
    }
  }

  lemma {:induction false} StrLtTransitive(a: string, b: string, c: string)
    requires StrLt(a, b) && StrLt(b, c)
    ensures StrLt(a, c)
    decreases |a|
  {
    if a != [] && a[0] == b[0] && b[0] == c[0] {
      StrLtTransitive(a[1..], b[1..], c[1..]);
    }
  }

  lemma {:induction false} StrLtTotal(a: string, b: string)
    ensures a == b || StrLt(a, b) || StrLt(b, a)
    decreases |a|
  {
    if a != [] && b != [] && a[0] == b[0] {
      StrLtTotal(a[1..], b[1..]);
      if a[1..] == b[1..] {
        assert a == [a[0]] + a[1..] && b == [b[0]] + b[1..];
      }
    }
  }

  lemma StrLtAsymmetric(a: string, b: string)
    requires StrLt(a, b)
    ensures !StrLt(b, a)
  {
    if StrLt(b, a) {
      StrLtTransitive(a, b, a);
      StrLtIrreflexive(a);
    }
  }

  predicate IsLeastString(m: string, s: set<string>) {
    m in s && forall y | y in s :: StrLe(m, y)
  }

  lemma {:induction false} LeastStringExists(s: set<string>)
    requires s != {}
    ensures exists m :: IsLeastString(m, s)
    decreases |s|
  {
    var x :| x in s;
    var rest := s - {x};
    if rest == {} {
      assert s == {x};
      assert IsLeastString(x, s);
    } else {
      LeastStringExists(rest);
      var m :| IsLeastString(m, rest);
      StrLtTotal(x, m);
      if StrLt(x, m) {
        forall y | y in s
          ensures StrLe(x, y)
        {
          if y != x {
            assert y in rest;
            if StrLt(m, y) {
              StrLtTransitive(x, m, y);
            }
          }
        }
        assert IsLeastString(x, s);
      } else {
        assert IsLeastString(m, s);
      }
    }
  }

  lemma LeastStringUnique(m: string, n: string, s: set<string>)
    requires IsLeastString(m, s) && IsLeastString(n, s)
    ensures m == n
  {
    if m != n {
      assert StrLt(m, n) && StrLt(n, m);
      StrLtAsymmetric(m, n);
    }
  }

  ghost function LeastString(s: set<string>): (m: string)
    requires s != {}
    ensures IsLeastString(m, s)
  {
    LeastStringExists(s);
    var m :| IsLeastString(m, s);
    m
  }

  predicate StrictlySortedStrings(q: seq<string>) {
    forall i, j | 0 <= i < j < |q| :: StrLt(q[i], q[j])
  }

  /** The elements of `s` in the order a `std::set<std::string>` or the keys
      of a `std::map<std::string, _>` are visited. */
  ghost function SortedStrings(s: set<string>): (q: seq<string>)
    ensures |q| == |s|
    decreases |s|
  {
    if s == {} then []
    else
      var m := LeastString(s);
      [m] + SortedStrings(s - {m})
  }

  /** The visit order lists every element once, in increasing order. */
  lemma {:induction false} SortedStringsSpec(s: set<string>)
    ensures StrictlySortedStrings(SortedStrings(s))
    ensures forall x :: x in SortedStrings(s) <==> x in s
    decreases |s|
  {
    if s != {} {
      var m := LeastString(s);
      var rest := SortedStrings(s - {m});
      SortedStringsSpec(s - {m});
      forall j | 0 <= j < |rest|
        ensures StrLt(m, rest[j])
      {
        assert rest[j] in s - {m};
      }
    }
  }

  /** The first element visited is the least one, and the rest follow. */
  lemma SortedStringsStep(s: set<string>, m: string)
    requires IsLeastString(m, s)
    ensures SortedStrings(s) == [m] + SortedStrings(s - {m})
  {
    LeastStringUnique(m, LeastString(s), s);
  }

  predicate IsLeastWord(m: u32, s: set<u32>) {
    m in s && forall y | y in s :: m <= y
  }

  lemma {:induction false} LeastWordExists(s: set<u32>)
    requires s != {}
    ensures exists m :: IsLeastWord(m, s)
    decreases |s|
  {
    var x :| x in s;
    var rest := s - {x};
    if rest == {} {
      assert s == {x};
      assert IsLeastWord(x, s);
    } else {
      LeastWordExists(rest);
      var m :| IsLeastWord(m, rest);
      assert forall y | y in s :: y == x || y in rest;
      if x < m {
        assert IsLeastWord(x, s);
      } else {
        assert IsLeastWord(m, s);
      }
    }
  }

  ghost function LeastWord(s: set<u32>): (m: u32)
    requires s != {}
    ensures IsLeastWord(m, s)
  {
    LeastWordExists(s);
    var m :| IsLeastWord(m, s);
    m
  }

  predicate StrictlySortedWords(q: seq<u32>) {
    forall i, j | 0 <= i < j < |q| :: q[i] < q[j]
  }

  /** The elements of a `std::set` of addresses in the order it is visited. */
  ghost function SortedWords(s: set<u32>): (q: seq<u32>)
    ensures |q| == |s|
    decreases |s|
  {
    if s == {} then []
    else
      var m := LeastWord(s);
      [m] + SortedWords(s - {m})
  }

  lemma {:induction false} SortedWordsSpec(s: set<u32>)
    ensures StrictlySortedWords(SortedWords(s))
    ensures forall x :: x in SortedWords(s) <==> x in s
    decreases |s|
  {
    if s != {} {
      var m := LeastWord(s);
      var rest := SortedWords(s - {m});
      var q := SortedWords(s);
      assert q == [m] + rest;
      SortedWordsSpec(s - {m});
      forall i, j | 0 <= i < j < |q|
        ensures q[i] < q[j]
      {
        assert q[j] == rest[j - 1] && rest[j - 1] in s - {m};
        if i > 0 {
          assert q[i] == rest[i - 1];
        }
      }
      forall x
        ensures x in q <==> x in s
      {
        assert x in q <==> x == m || x in rest;
      }
    }
  }

  lemma SortedWordsStep(s: set<u32>, m: u32)
    requires IsLeastWord(m, s)
    ensures SortedWords(s) == [m] + SortedWords(s - {m})
  {
  }
}
