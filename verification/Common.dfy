/** Failure-carrying results, used for the errors the source throws. */
module Results {
  datatype Option<+T> = None | Some(value: T) {
    predicate IsFailure() {
      None?
    }

    function PropagateFailure<U>(): Option<U>
      requires None?
    {
      None
    }

    function Extract(): T
      requires Some?
    {
      value
    }
  }

  datatype Result<+T, +E> = Ok(value: T) | Err(error: E) {
    predicate IsFailure() {
      Err?
    }

    function PropagateFailure<U>(): Result<U, E>
      requires Err?
    {
      Err(error)
    }

    function Extract(): T
      requires Ok?
    {
      value
    }
  }
}

/** Event and record identifiers, and sorted listings of them. An identifier stands for the digest
    it carries: digests have one width, so comparing them as strings compares them as numbers. */
module Ids {
  type Id = nat

  ghost predicate StrictlySorted(s: seq<Id>) {
    forall i, j :: 0 <= i < j < |s| ==> s[i] < s[j]
  }

  predicate Increasing(s: seq<Id>) {
    forall i :: 0 <= i < |s| - 1 ==> s[i] < s[i + 1]
  }

  lemma {:induction false} IncreasingIsSorted(s: seq<Id>)
    ensures Increasing(s) <==> StrictlySorted(s)
  {
    if |s| > 1 && Increasing(s) {
      IncreasingIsSorted(s[1..]);
      assert forall i :: 0 <= i < |s| - 1 ==> s[i + 1] == s[1..][i];
      forall i, j | 0 <= i < j < |s|
        ensures s[i] < s[j]
      {
        if i > 0 {
          assert s[i] == s[1..][i - 1] && s[j] == s[1..][j - 1];
        } else if j > 1 {
          assert s[1] == s[1..][0] && s[j] == s[1..][j - 1];
        }
      }
    }
  }

  function Elements<T(==)>(s: seq<T>): set<T> {
    set x | x in s
  }

  predicate IsMinimum(m: Id, s: set<Id>) {
    m in s && forall x :: x in s ==> m <= x
  }

  lemma {:induction false} HasMinimum(s: set<Id>) returns (m: Id)
    requires s != {}
    ensures IsMinimum(m, s)
  {
    m :| m in s;
    if s != {m} {
      var n := HasMinimum(s - {m});
      forall x | x in s
        ensures x == m || n <= x
      {
        assert x == m || x in s - {m};
      }
      m := if m < n then m else n;
    }
  }

  lemma MinimumExists(s: set<Id>)
    requires s != {}
    ensures exists m :: IsMinimum(m, s)
  {
    var m := HasMinimum(s);
  }

  function Minimum(s: set<Id>): (m: Id)
    requires s != {}
    ensures m in s && forall x :: x in s ==> m <= x
  {
    MinimumExists(s);
    var m: Id :| m in s && IsMinimum(m, s);
    m
  }

  /** `[...set].sort(...)`: the ascending listing of a set. */
  function SortIds(s: set<Id>): (r: seq<Id>)
    ensures StrictlySorted(r) && Elements(r) == s
  {
    if s == {} then []
    else
      var m := Minimum(s);
      var rest := SortIds(s - {m});
      assert forall x :: x in rest <==> x in Elements(rest);
      assert forall x :: x in [m] + rest <==> x == m || x in rest;
      [m] + rest
  }

  lemma FirstIsElement(a: seq<Id>)
    ensures forall x :: x in a <==> x in Elements(a)
    ensures |a| > 0 ==> a[0] in Elements(a)
  {
  }

  lemma ElementsStep<T>(s: seq<T>, i: nat)
    requires i < |s|
    ensures Elements(s[..i + 1]) == Elements(s[..i]) + {s[i]}
  {
    assert s[..i + 1] == s[..i] + [s[i]];
  }

  lemma ElementsWhole<T>(s: seq<T>)
    ensures s[..|s|] == s && Elements(s[..|s|]) == Elements(s)
  {
  }

  lemma ElementsAppend<T>(s: seq<T>, x: T)
    ensures Elements(s + [x]) == Elements(s) + {x}
  {
  }

  /** An ascending listing is determined by its set. */
  lemma {:induction false} SortedUnique(a: seq<Id>, b: seq<Id>)
    requires StrictlySorted(a) && StrictlySorted(b) && Elements(a) == Elements(b)
    ensures a == b
  {
    FirstIsElement(a);
    FirstIsElement(b);
    if |a| > 0 && |b| > 0 {
      forall x
        ensures x in Elements(a[1..]) <==> x in Elements(b[1..])
      {
        assert x in Elements(a) <==> x == a[0] || x in a[1..];
        assert x in Elements(b) <==> x == b[0] || x in b[1..];
      }
      SortedUnique(a[1..], b[1..]);
      assert a == [a[0]] + a[1..] && b == [b[0]] + b[1..];
    }
  }

  lemma SortIdsOfSorted(s: seq<Id>)
    requires StrictlySorted(s)
    ensures SortIds(Elements(s)) == s
  {
    SortedUnique(SortIds(Elements(s)), s);
  }

  lemma {:induction false} DistinctCard<T>(s: seq<T>)
    ensures |Elements(s)| <= |s|
    ensures |Elements(s)| == |s| <==> forall i, j :: 0 <= i < j < |s| ==> s[i] != s[j]
  {
    if |s| > 0 {
      DistinctCard(s[1..]);
      if s[0] in s[1..] {
        assert Elements(s) == Elements(s[1..]);
        var j :| 0 <= j < |s[1..]| && s[1..][j] == s[0];
        assert s[0] == s[j + 1];
      } else {
        assert Elements(s) == Elements(s[1..]) + {s[0]};
        assert forall i :: 0 < i < |s| ==> s[i] == s[1..][i - 1];
        assert forall i :: 0 <= i < |s[1..]| ==> s[1..][i] == s[i + 1];
      }
    }
  }

  // ----- lists with repetitions -----

  ghost predicate Sorted(s: seq<Id>) {
    forall i, j :: 0 <= i < j < |s| ==> s[i] <= s[j]
  }

  function InsertId(x: Id, s: seq<Id>): (r: seq<Id>)
    ensures |r| == |s| + 1 && forall y :: y in r <==> y == x || y in s
  {
    if |s| == 0 || x <= s[0] then [x] + s
    else
      var rest := InsertId(x, s[1..]);
      assert forall y :: y in s <==> y == s[0] || y in s[1..];
      [s[0]] + rest
  }

  /** `[...list].sort(...)`: repetitions stay. */
  function SortList(s: seq<Id>): (r: seq<Id>)
    ensures |r| == |s| && forall y :: y in r <==> y in s
  {
    if |s| == 0 then []
    else
      assert forall y :: y in s <==> y == s[0] || y in s[1..];
      InsertId(s[0], SortList(s[1..]))
  }

  lemma {:induction false} InsertSorted(x: Id, s: seq<Id>)
    requires Sorted(s)
    ensures Sorted(InsertId(x, s))
    ensures |s| == 0 || x <= s[0] ==> InsertId(x, s) == [x] + s
  {
    if |s| > 0 && x > s[0] {
      InsertSorted(x, s[1..]);
      var r := InsertId(x, s[1..]);
      assert forall j :: 0 <= j < |r| ==> r[j] in r;
    }
  }

  lemma {:induction false} InsertKeeps(x: Id, s: seq<Id>)
    ensures multiset(InsertId(x, s)) == multiset(s) + multiset{x}
  {
    if |s| > 0 && s[0] < x {
      InsertKeeps(x, s[1..]);
      assert s == [s[0]] + s[1..];
    }
  }

  lemma {:induction false} SortListKeeps(s: seq<Id>)
    ensures multiset(SortList(s)) == multiset(s)
  {
    if |s| > 0 {
      SortListKeeps(s[1..]);
      InsertKeeps(s[0], SortList(s[1..]));
      assert s == [s[0]] + s[1..];
    }
  }

  lemma HeadIsLeast(s: seq<Id>, t: seq<Id>)
    requires Sorted(s) && |s| > 0 && |t| > 0 && multiset(s) == multiset(t)
    ensures s[0] <= t[0]
  {
    assert t[0] in multiset(s);
    var i :| 0 <= i < |s| && s[i] == t[0];
  }

  lemma WithoutHead(s: seq<Id>)
    requires |s| > 0
    ensures multiset(s[1..]) == multiset(s) - multiset{s[0]}
  {
    assert s == [s[0]] + s[1..];
  }

  lemma {:induction false} SortedSame(s: seq<Id>, t: seq<Id>)
    requires Sorted(s) && Sorted(t) && multiset(s) == multiset(t)
    ensures s == t
  {
    assert |multiset(s)| == |s| && |multiset(t)| == |t|;
    if |s| > 0 {
      HeadIsLeast(s, t);
      HeadIsLeast(t, s);
      WithoutHead(s);
      WithoutHead(t);
      SortedSame(s[1..], t[1..]);
      assert s == [s[0]] + s[1..] && t == [t[0]] + t[1..];
    }
  }

  lemma {:induction false} SortListSorts(s: seq<Id>)
    ensures Sorted(SortList(s))
    ensures Sorted(s) ==> SortList(s) == s
  {
    if |s| > 0 {
      SortListSorts(s[1..]);
      InsertSorted(s[0], SortList(s[1..]));
    }
  }

  /** A table holding the same value under every listed key. */
  function Fill<T>(keys: seq<Id>, v: T): (m: map<Id, T>)
    ensures m.Keys == Elements(keys) && forall k :: k in m ==> m[k] == v
  {
    if |keys| == 0 then map[]
    else
      assert Elements(keys) == {keys[0]} + Elements(keys[1..]) by {
        assert keys == [keys[0]] + keys[1..];
      }
      Fill(keys[1..], v)[keys[0] := v]
  }
}
