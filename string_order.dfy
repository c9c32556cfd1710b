/** The order in which JavaScript's `Array.prototype.sort` puts strings when it
    is given no comparator: lexicographic on UTF-16 code units, a proper prefix
    first. A `char` is a Unicode scalar value, which is one UTF-16 code unit
    for the characters of the Basic Multilingual Plane; on strings made of
    those characters the two orders agree. The sort itself is a library call
    in the widget; it is modelled by an insertion sort whose result is proved
    sorted and a permutation of its input. */
module StringOrder {

  /** Strict lexicographic order on code units: a string never sorts before
      one whose first code unit is smaller, nor before the empty string. */
  predicate Less(a: string, b: string)
    ensures Less(a, b) ==> b != [] && (a != [] ==> a[0] <= b[0])
  {
    if a == [] then b != []
    else if b == [] then false
    else a[0] < b[0] || (a[0] == b[0] && Less(a[1..], b[1..]))
  }

  /** A proper prefix sorts before the longer string. */
  lemma {:induction false} ProperPrefixFirst(a: string, b: string)
    requires a < b
    ensures Less(a, b)
  {
    if a != [] {
      assert a[1..] < b[1..] by {
        assert a[1..] == b[1..|a|];
      }
      ProperPrefixFirst(a[1..], b[1..]);
    }
  }

  predicate LessEq(a: string, b: string)
  {
    a == b || Less(a, b)
  }

  lemma {:induction false} LessIrreflexive(a: string)
    ensures !Less(a, a)
  {
    if a != [] {
      LessIrreflexive(a[1..]);
    }
  }

  lemma {:induction false} LessTransitive(a: string, b: string, c: string)
    requires Less(a, b) && Less(b, c)
    ensures Less(a, c)
  {
    if a != [] && a[0] == b[0] && b[0] == c[0] {
      LessTransitive(a[1..], b[1..], c[1..]);
    }
  }

  /** Any two strings are comparable: the order is total. */
  lemma {:induction false} LessTotal(a: string, b: string)
    ensures a == b || Less(a, b) || Less(b, a)
  {
    if a != [] && b != [] && a[0] == b[0] {
      LessTotal(a[1..], b[1..]);
      assert a == [a[0]] + a[1..] && b == [b[0]] + b[1..];
    }
  }

  lemma LessAsymmetric(a: string, b: string)
    requires Less(a, b)
    ensures !Less(b, a)
  {
    if Less(b, a) {
      LessTransitive(a, b, a);
      LessIrreflexive(a);
    }
  }

  lemma LessEqTransitive(a: string, b: string, c: string)
    requires LessEq(a, b) && LessEq(b, c)
    ensures LessEq(a, c)
  {
    if a != b && b != c {
      LessTransitive(a, b, c);
    }
  }

  lemma LessEqAntisymmetric(a: string, b: string)
    requires LessEq(a, b) && LessEq(b, a)
    ensures a == b
  {
    if a != b {
      LessAsymmetric(a, b);
    }
  }

  predicate Sorted(s: seq<string>)
  {
    forall i, j :: 0 <= i < j < |s| ==> LessEq(s[i], s[j])
  }

  predicate NoDups(s: seq<string>)
  {
    forall i, j :: 0 <= i < j < |s| ==> s[i] != s[j]
  }

  /** Puts `x` in front of the first element it does not exceed. */
  function Insert(x: string, s: seq<string>): (r: seq<string>)
    ensures multiset(r) == multiset(s) + multiset{x}
  {
    if s == [] || LessEq(x, s[0]) then [x] + s
    else
      assert s == [s[0]] + s[1..];
      [s[0]] + Insert(x, s[1..])
  }

  /** A string at or below `x` and every element of `s` stays at or below
      every element once `x` is inserted. */
  lemma InsertKeepsLowerBound(b: string, x: string, s: seq<string>)
    requires LessEq(b, x)
    requires forall k :: 0 <= k < |s| ==> LessEq(b, s[k])
    ensures forall k :: 0 <= k < |Insert(x, s)| ==> LessEq(b, Insert(x, s)[k])
  {
    var t := Insert(x, s);
    forall k | 0 <= k < |t|
      ensures LessEq(b, t[k])
    {
      assert t[k] in multiset(t);
      if t[k] != x {
        assert t[k] in multiset(s);
        var j :| 0 <= j < |s| && s[j] == t[k];
      }
    }
  }

  lemma {:induction false} InsertSorted(x: string, s: seq<string>)
    requires Sorted(s)
    ensures Sorted(Insert(x, s))
  {
    if s == [] || LessEq(x, s[0]) {
      forall j | 0 <= j < |s|
        ensures LessEq(x, s[j])
      {
        if j > 0 {
          LessEqTransitive(x, s[0], s[j]);
        }
      }
    } else {
      var tail := Insert(x, s[1..]);
      InsertSorted(x, s[1..]);
      LessTotal(x, s[0]);
      forall k | 0 <= k < |s[1..]|
        ensures LessEq(s[0], s[1..][k])
      {
        assert s[1..][k] == s[k + 1];
      }
      InsertKeepsLowerBound(s[0], x, s[1..]);
      var r := [s[0]] + tail;
      assert Insert(x, s) == r;
      forall i, j | 0 <= i < j < |r|
        ensures LessEq(r[i], r[j])
      {
        if i > 0 {
          assert r[i] == tail[i - 1] && r[j] == tail[j - 1];
        } else {
          assert r[j] == tail[j - 1];
        }
      }
    }
  }

  lemma {:induction false} InsertNoDups(x: string, s: seq<string>)
    requires NoDups(s) && x !in s
    ensures NoDups(Insert(x, s))
  {
    if s == [] || LessEq(x, s[0]) {
      var r := [x] + s;
      forall i, j | 0 <= i < j < |r|
        ensures r[i] != r[j]
      {
        if i > 0 {
          assert r[i] == s[i - 1] && r[j] == s[j - 1];
        } else {
          assert r[j] == s[j - 1];
        }
      }
    } else {
      var tail := Insert(x, s[1..]);
      assert x !in s[1..];
      InsertNoDups(x, s[1..]);
      assert s[0] !in s[1..] by {
        forall j | 0 <= j < |s[1..]|
          ensures s[1..][j] != s[0]
        {
          assert s[1..][j] == s[j + 1];
        }
      }
      assert s[0] !in multiset(tail);
      var r := [s[0]] + tail;
      forall i, j | 0 <= i < j < |r|
        ensures r[i] != r[j]
      {
        if i > 0 {
          assert r[i] == tail[i - 1] && r[j] == tail[j - 1];
        } else {
          assert r[j] == tail[j - 1];
          assert tail[j - 1] in multiset(tail);
        }
      }
    }
  }

  /** Insertion sort: the result is in ascending order and holds exactly the
      elements of the input, each as often as the input does. */
  function Sort(s: seq<string>): (r: seq<string>)
    ensures Sorted(r)
    ensures multiset(r) == multiset(s)
  {
    if s == [] then []
    else
      var rest := Sort(s[1..]);
      InsertSorted(s[0], rest);
      assert s == [s[0]] + s[1..];
      Insert(s[0], rest)
  }

  lemma {:induction false} SortNoDups(s: seq<string>)
    requires NoDups(s)
    ensures NoDups(Sort(s))
  {
    if s != [] {
      var rest := Sort(s[1..]);
      SortNoDups(s[1..]);
      assert s[0] !in s[1..] by {
        forall j | 0 <= j < |s[1..]|
          ensures s[1..][j] != s[0]
        {
          assert s[1..][j] == s[j + 1];
        }
      }
      assert s[0] !in multiset(rest);
      InsertNoDups(s[0], rest);
    }
  }

  /** A sorted duplicate-free sequence is determined by its set of elements. */
  lemma {:induction false} StrictlySortedUnique(a: seq<string>, b: seq<string>)
    requires Sorted(a) && NoDups(a) && Sorted(b) && NoDups(b)
    requires forall t :: t in a <==> t in b
    ensures a == b
  {
    assert |a| > 0 ==> a[0] in a;
    assert |b| > 0 ==> b[0] in b;
    if a != [] && b != [] {
      var k :| 0 <= k < |b| && b[k] == a[0];
      var m :| 0 <= m < |a| && a[m] == b[0];
      assert LessEq(a[0], b[0]) by {
        if m > 0 { assert LessEq(a[0], a[m]); }
      }
      assert LessEq(b[0], a[0]) by {
        if k > 0 { assert LessEq(b[0], b[k]); }
      }
      LessEqAntisymmetric(a[0], b[0]);
      var a', b' := a[1..], b[1..];
      forall t
        ensures t in a' <==> t in b'
      {
        if t in a' {
          var i :| 0 <= i < |a'| && a'[i] == t;
          assert a[i + 1] == t && t in a;
          assert a[0] != a[i + 1];
          var j :| 0 <= j < |b| && b[j] == t;
          assert b'[j - 1] == t;
        }
        if t in b' {
          var j :| 0 <= j < |b'| && b'[j] == t;
          assert b[j + 1] == t && t in b;
          assert b[0] != b[j + 1];
          var i :| 0 <= i < |a| && a[i] == t;
          assert a'[i - 1] == t;
        }
      }
      assert Sorted(a') && NoDups(a') by {
        forall i, j | 0 <= i < j < |a'| ensures LessEq(a'[i], a'[j]) && a'[i] != a'[j] {
          assert a'[i] == a[i + 1] && a'[j] == a[j + 1];
        }
      }
      assert Sorted(b') && NoDups(b') by {
        forall i, j | 0 <= i < j < |b'| ensures LessEq(b'[i], b'[j]) && b'[i] != b'[j] {
          assert b'[i] == b[i + 1] && b'[j] == b[j + 1];
        }
      }
      StrictlySortedUnique(a', b');
      assert a == [a[0]] + a' && b == [b[0]] + b';
    }
  }
}
