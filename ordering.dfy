/** Python's ordering of `str` values and `sorted(...)` applied to a set of
    strings: the result is the unique strictly ascending sequence holding
    exactly the set's elements. */
module Ordering {

  /** Python's `a < b` on `str`: code points compared left to right, and a
      proper prefix comes before the longer string. */
  predicate Less(a: string, b: string) {
    if a == [] then b != []
    else b != [] && (a[0] < b[0] || (a[0] == b[0] && Less(a[1..], b[1..])))
  }

  lemma {:induction false} LessIrreflexive(a: string)
    ensures !Less(a, a)
  {
    if a != [] {
      LessIrreflexive(a[1..]);
    }
  }

  lemma {:induction false} LessTransitive(a: string, b: string, c: string)
    requires Less(a, b) && Less(b, c)
    ensures Less(a, c)
  {
    if a != [] && a[0] == b[0] && b[0] == c[0] {
      LessTransitive(a[1..], b[1..], c[1..]);
    }
  }

  lemma {:induction false} LessTotal(a: string, b: string)
    requires a != b
    ensures Less(a, b) || Less(b, a)
  {
    if a != [] && b != [] && a[0] == b[0] {
      assert a == [a[0]] + a[1..] && b == [b[0]] + b[1..];
      LessTotal(a[1..], b[1..]);
    }
  }

  function Elements(ks: seq<string>): set<string> {
    set k | k in ks
  }

  /** Ascending without repetitions, which is what `sorted` yields for a set. */
  ghost predicate StrictlySorted(ks: seq<string>) {
    forall i, j :: 0 <= i < j < |ks| ==> Less(ks[i], ks[j])
  }

  /** Every finite non-empty set of strings has a least element. */
  lemma {:induction false} MinExists(s: set<string>) returns (m: string)
    requires s != {}
    ensures m in s && forall x :: x in s && x != m ==> Less(m, x)
    decreases |s|
  {
    var x :| x in s;
    if s == {x} {
      m := x;
    } else {
      var m' := MinExists(s - {x});
      if Less(x, m') {
        m := x;
        forall y | y in s && y != x
          ensures Less(x, y)
        {
          if y != m' {
            LessTransitive(x, m', y);
          }
        }
      } else {
        m := m';
        LessTotal(x, m');
      }
    }
  }

  lemma {:induction false} SortedExists(s: set<string>)
    ensures exists ks :: StrictlySorted(ks) && Elements(ks) == s && |ks| == |s|
    decreases |s|
  {
    if s == {} {
      assert StrictlySorted([]) && Elements([]) == s;
    } else {
      var m := MinExists(s);
      SortedExists(s - {m});
      var rest :| StrictlySorted(rest) && Elements(rest) == s - {m} && |rest| == |s - {m}|;
      var ks := [m] + rest;
      assert Elements(ks) == s by {
        forall y | y in s ensures y in ks {
          if y != m {
            assert y in Elements(rest);
          }
        }
        forall y | y in ks ensures y in s {
          if y != m {
            assert y in rest && y in Elements(rest);
          }
        }
      }
      forall i, j | 0 <= i < j < |ks| ensures Less(ks[i], ks[j]) {
        if i == 0 {
          assert ks[j] == rest[j - 1] && ks[j] in Elements(rest);
        } else {
          assert ks[i] == rest[i - 1] && ks[j] == rest[j - 1];
        }
      }
    }
  }

  /** The value of `sorted(s)`. */
  ghost function SortedKeys(s: set<string>): (ks: seq<string>)
    ensures StrictlySorted(ks) && Elements(ks) == s && |ks| == |s|
  {
    SortedExists(s);
    var ks :| StrictlySorted(ks) && Elements(ks) == s && |ks| == |s|;
    ks
  }

  /** Two strictly ascending sequences with the same elements are equal, so
      `sorted` of a set is determined by the set alone. */
  lemma {:induction false} SortedUnique(a: seq<string>, b: seq<string>)
    requires StrictlySorted(a) && StrictlySorted(b) && Elements(a) == Elements(b)
    ensures a == b
    decreases |a|
  {
    assert b != [] ==> b[0] in Elements(b);
    if a != [] {
      assert a[0] in Elements(a) && b != [];
      var i :| 0 <= i < |a| && a[i] == b[0];
      var j :| 0 <= j < |b| && b[j] == a[0];
      if i != 0 && j != 0 {
        LessTransitive(a[0], b[0], a[0]);
        LessIrreflexive(a[0]);
        assert false;
      }
      assert Elements(a[1..]) == Elements(a) - {a[0]} by {
        forall k | 0 < k < |a| ensures a[k] != a[0] {
          LessIrreflexive(a[0]);
        }
        assert a == [a[0]] + a[1..];
      }
      assert Elements(b[1..]) == Elements(b) - {b[0]} by {
        forall k | 0 < k < |b| ensures b[k] != b[0] {
          LessIrreflexive(b[0]);
        }
        assert b == [b[0]] + b[1..];
      }
      SortedUnique(a[1..], b[1..]);
      assert a == [a[0]] + a[1..] && b == [b[0]] + b[1..];
    }
  }

  /** The least element of a non-empty set, found by a scan. */
  method MinOf(s: set<string>) returns (m: string)
    requires s != {}
    ensures m in s && forall x :: x in s && x != m ==> Less(m, x)
  {
    m :| m in s;
    var todo := s - {m};
    while todo != {}
      invariant todo <= s && m in s && m !in todo
      invariant forall x :: x in s - todo && x != m ==> Less(m, x)
      decreases |todo|
    {
      var y :| y in todo;
      if Less(y, m) {
        forall x | x in s - todo && x != m
          ensures Less(y, x)
        {
          LessTransitive(y, m, x);
        }
        m := y;
      } else {
        LessTotal(y, m);
      }
      todo := todo - {y};
    }
  }

  /** Appending an element above every element keeps a sequence strictly
      ascending, and adds exactly that element. */
  lemma SortedAppend(ks: seq<string>, m: string)
    requires StrictlySorted(ks) && forall i :: 0 <= i < |ks| ==> Less(ks[i], m)
    ensures StrictlySorted(ks + [m]) && Elements(ks + [m]) == Elements(ks) + {m}
  {
  }

  /** `sorted(s)` for a set of strings. Python's sort algorithm itself is not
      modelled, only the sequence it returns. */
  method SortKeys(s: set<string>) returns (ks: seq<string>)
    ensures StrictlySorted(ks) && Elements(ks) == s
    ensures ks == SortedKeys(s)
  {
    ks := [];
    var rest := s;
    while rest != {}
      invariant StrictlySorted(ks)
      invariant Elements(ks) + rest == s && Elements(ks) !! rest
      invariant forall i, y :: 0 <= i < |ks| && y in rest ==> Less(ks[i], y)
      decreases |rest|
    {
      var m := MinOf(rest);
      SortedAppend(ks, m);
      forall i, y | 0 <= i < |ks + [m]| && y in rest - {m}
        ensures Less((ks + [m])[i], y)
      {
        if i < |ks| {
          assert (ks + [m])[i] == ks[i];
        }
      }
      ks := ks + [m];
      rest := rest - {m};
    }
    SortedUnique(ks, SortedKeys(s));
  }
}
