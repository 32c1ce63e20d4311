/**
 * The stable ascending sort that `Array.prototype.sort` performs for a
 * comparator: `le(a, b)` says that the comparator does not put `a` after `b`.
 */
module StableSort {

  ghost predicate TotalPreorder<T(!new)>(le: (T, T) -> bool) {
    && (forall a, b :: le(a, b) || le(b, a))
    && (forall a, b, c :: le(a, b) && le(b, c) ==> le(a, c))
  }

  ghost predicate Sorted<T>(le: (T, T) -> bool, s: seq<T>) {
    forall i, j :: 0 <= i < j < |s| ==> le(s[i], s[j])
  }

  /** `x` goes before everything it does not follow: equal elements keep their order. */
  function Insert<T>(le: (T, T) -> bool, x: T, s: seq<T>): seq<T> {
    if s == [] then [x]
    else if le(x, s[0]) then [x] + s
    else [s[0]] + Insert(le, x, s[1..])
  }

  function Sort<T>(le: (T, T) -> bool, s: seq<T>): seq<T> {
    if s == [] then [] else Insert(le, s[0], Sort(le, s[1..]))
  }

  lemma {:induction false} InsertKeepsElements<T>(le: (T, T) -> bool, x: T, s: seq<T>)
    ensures multiset(Insert(le, x, s)) == multiset{x} + multiset(s)
  {
    if s != [] {
      assert s == [s[0]] + s[1..];
      if !le(x, s[0]) {
        InsertKeepsElements(le, x, s[1..]);
      }
    }
  }

  lemma {:induction false} InsertSorts<T(!new)>(le: (T, T) -> bool, x: T, s: seq<T>)
    requires TotalPreorder(le) && Sorted(le, s)
    ensures Sorted(le, Insert(le, x, s))
  {
    if s != [] && !le(x, s[0]) {
      var rest := Insert(le, x, s[1..]);
      InsertSorts(le, x, s[1..]);
      InsertKeepsElements(le, x, s[1..]);
      forall i | 0 <= i < |rest| ensures le(s[0], rest[i]) {
        assert rest[i] in multiset(rest);
        assert rest[i] == x || rest[i] in s[1..];
      }
    }
  }

  lemma {:induction false} SortSorts<T(!new)>(le: (T, T) -> bool, s: seq<T>)
    requires TotalPreorder(le)
    ensures Sorted(le, Sort(le, s))
    ensures multiset(Sort(le, s)) == multiset(s)
    ensures |Sort(le, s)| == |s|
  {
    if s != [] {
      SortSorts(le, s[1..]);
      InsertSorts(le, s[0], Sort(le, s[1..]));
      InsertKeepsElements(le, s[0], Sort(le, s[1..]));
      assert s == [s[0]] + s[1..];
    }
    assert |multiset(Sort(le, s))| == |Sort(le, s)| && |multiset(s)| == |s|;
  }

  lemma SortMembers<T(!new)>(le: (T, T) -> bool, s: seq<T>)
    requires TotalPreorder(le)
    ensures forall x :: x in Sort(le, s) <==> x in s
  {
    SortSorts(le, s);
    forall x ensures x in Sort(le, s) <==> x in s {
      assert x in Sort(le, s) <==> x in multiset(Sort(le, s));
      assert x in s <==> x in multiset(s);
    }
  }

  lemma {:induction false} SortOfSorted<T>(le: (T, T) -> bool, s: seq<T>)
    requires Sorted(le, s)
    ensures Sort(le, s) == s
  {
    if s != [] {
      SortOfSorted(le, s[1..]);
    }
  }

  lemma SameFirst<T>(le: (T, T) -> bool, s: seq<T>, t: seq<T>)
    requires Sorted(le, s) && multiset(s) == multiset(t) && s != [] && t != []
    ensures s[0] == t[0] || le(s[0], t[0])
  {
    assert t[0] in multiset(t);
    var i :| 0 <= i < |s| && s[i] == t[0];
  }

  lemma SameRest<T>(s: seq<T>, t: seq<T>)
    requires s != [] && t != [] && s[0] == t[0] && multiset(s) == multiset(t)
    ensures multiset(s[1..]) == multiset(t[1..])
  {
    assert s == [s[0]] + s[1..] && t == [t[0]] + t[1..];
    assert multiset(s[1..]) == multiset(s) - multiset{s[0]};
    assert multiset(t[1..]) == multiset(t) - multiset{t[0]};
  }

  // ----- one element out of a sequence -----------------------------------------------------

  lemma WithoutOne<T>(s: seq<T>, k: nat)
    requires k < |s|
    ensures s == s[..k] + ([s[k]] + s[k + 1..])
    ensures multiset(s[..k] + s[k + 1..]) == multiset(s) - multiset{s[k]}
  {
    assert s == s[..k] + ([s[k]] + s[k + 1..]);
    assert multiset(s) == multiset(s[..k]) + (multiset{s[k]} + multiset(s[k + 1..]));
  }

  lemma AlsoIn<T>(s: seq<T>, t: seq<T>, i: nat) returns (k: nat)
    requires multiset(s) == multiset(t) && i < |s|
    ensures k < |t| && t[k] == s[i]
  {
    assert s[i] in multiset(t);
    k :| 0 <= k < |t| && t[k] == s[i];
  }

  /** Two arrangements of the same elements, each without one and the same. */
  lemma LastAndFirst<T>(s: seq<T>, t: seq<T>, k: nat)
    requires multiset(s) == multiset(t) && s != [] && k < |t| && t[k] == s[|s| - 1]
    ensures multiset(s[..|s| - 1]) == multiset(t[..k] + t[k + 1..])
  {
    WithoutOne(s, |s| - 1);
    WithoutOne(t, k);
    assert s[..|s| - 1] + s[|s|..] == s[..|s| - 1];
  }

  /** For an antisymmetric order a sorted arrangement is unique. */
  lemma {:induction false} SortedIsUnique<T(!new)>(le: (T, T) -> bool, s: seq<T>, t: seq<T>)
    requires forall a, b :: le(a, b) && le(b, a) ==> a == b
    requires Sorted(le, s) && Sorted(le, t) && multiset(s) == multiset(t)
    ensures s == t
  {
    assert |multiset(s)| == |s| && |multiset(t)| == |t|;
    if s != [] {
      SameFirst(le, s, t);
      SameFirst(le, t, s);
      assert s[0] == t[0];
      SameRest(s, t);
      SortedIsUnique(le, s[1..], t[1..]);
      assert s == [s[0]] + s[1..] && t == [t[0]] + t[1..];
    }
  }

  lemma SortDependsOnElementsOnly<T(!new)>(le: (T, T) -> bool, s: seq<T>, t: seq<T>)
    requires TotalPreorder(le)
    requires forall a, b :: le(a, b) && le(b, a) ==> a == b
    requires multiset(s) == multiset(t)
    ensures Sort(le, s) == Sort(le, t)
  {
    SortSorts(le, s);
    SortSorts(le, t);
    SortedIsUnique(le, Sort(le, s), Sort(le, t));
  }

  /** An element ranked strictly above all others goes first, wherever it stood. */
  lemma {:induction false} SortAppendTop<T(!new)>(le: (T, T) -> bool, s: seq<T>, top: T)
    requires TotalPreorder(le)
    requires forall x :: x in s ==> !le(x, top)
    ensures Sort(le, s + [top]) == [top] + Sort(le, s)
  {
    if s == [] {
      assert s + [top] == [top];
      assert Sort(le, [top]) == Insert(le, top, Sort(le, []));
    } else {
      assert (s + [top])[0] == s[0] && (s + [top])[1..] == s[1..] + [top];
      SortAppendTop(le, s[1..], top);
      assert ([top] + Sort(le, s[1..]))[1..] == Sort(le, s[1..]);
    }
  }

  lemma InsertAtTheFront<T(!new)>(le: (T, T) -> bool, a: T, t: T, v: seq<T>) returns (i: nat)
    requires TotalPreorder(le) && Sorted(le, [t] + v)
    ensures i <= |Insert(le, a, v)|
    ensures Insert(le, a, [t] + v) == Insert(le, a, v)[..i] + [t] + Insert(le, a, v)[i..]
  {
    var all := [t] + v;
    assert all[1..] == v;
    if le(a, t) {
      i := 1;
      if v != [] {
        assert le(all[0], all[1]);
      }
      assert Insert(le, a, v) == [a] + v;
    } else {
      i := 0;
    }
  }

  lemma {:induction false} InsertAround<T(!new)>(le: (T, T) -> bool, a: T, u: seq<T>, t: T, v: seq<T>) returns (i: nat)
    requires TotalPreorder(le) && Sorted(le, u + [t] + v)
    ensures i <= |Insert(le, a, u + v)|
    ensures Insert(le, a, u + [t] + v) == Insert(le, a, u + v)[..i] + [t] + Insert(le, a, u + v)[i..]
  {
    var all, rest := u + [t] + v, u + v;
    if u == [] {
      assert all == [t] + v && rest == v;
      i := InsertAtTheFront(le, a, t, v);
    } else if le(a, u[0]) {
      i := |u| + 1;
      assert [a] + all == ([a] + rest)[..i] + [t] + ([a] + rest)[i..];
    } else {
      assert all[1..] == u[1..] + [t] + v && rest[1..] == u[1..] + v;
      var j := InsertAround(le, a, u[1..], t, v);
      i := j + 1;
      var inner := Insert(le, a, u[1..] + v);
      assert ([u[0]] + inner)[..i] == [u[0]] + inner[..j] && ([u[0]] + inner)[i..] == inner[j..];
    }
  }

  /** A later element goes somewhere among the sorted earlier ones and moves none of them. */
  lemma {:induction false} SortAppend<T(!new)>(le: (T, T) -> bool, s: seq<T>, t: T) returns (i: nat)
    requires TotalPreorder(le)
    ensures i <= |Sort(le, s)| && Sort(le, s + [t]) == Sort(le, s)[..i] + [t] + Sort(le, s)[i..]
  {
    if s == [] {
      assert s + [t] == [t] && Sort(le, [t]) == Insert(le, t, Sort(le, []));
      i := 0;
    } else {
      assert (s + [t])[0] == s[0] && (s + [t])[1..] == s[1..] + [t];
      var j := SortAppend(le, s[1..], t);
      var ranked := Sort(le, s[1..]);
      SortSorts(le, s[1..] + [t]);
      i := InsertAround(le, s[0], ranked[..j], t, ranked[j..]);
      assert ranked[..j] + ranked[j..] == ranked;
    }
  }
}
