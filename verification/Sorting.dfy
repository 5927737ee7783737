/** Stable sorting by a numeric key, run-deduplication and truncation, as `Vec` does them. */
module Sorting {

  ghost predicate Sorted<T>(s: seq<T>, key: T -> nat)
  {
    forall i, j :: 0 <= i < j < |s| ==> key(s[i]) <= key(s[j])
  }

  ghost predicate StrictlySorted<T>(s: seq<T>, key: T -> nat)
  {
    forall i, j :: 0 <= i < j < |s| ==> key(s[i]) < key(s[j])
  }

  function Take<T>(s: seq<T>, n: nat): seq<T>
  {
    if |s| <= n then s else s[..n]
  }

  /** Into a sorted sequence, after every element whose key is no larger. */
  function Insert<T>(s: seq<T>, x: T, key: T -> nat): (r: seq<T>)
    ensures multiset(r) == multiset(s) + multiset{x}
  {
    if s == [] then [x]
    else if key(x) < key(s[0]) then [x] + s
    else
      assert s == [s[0]] + s[1..];
      [s[0]] + Insert(s[1..], x, key)
  }

  /** `sort_by_key`: stable, because equal keys keep their order. */
  function Sort<T>(s: seq<T>, key: T -> nat): (r: seq<T>)
    ensures multiset(r) == multiset(s)
    ensures |r| == |s|
  {
    if s == [] then []
    else
      assert s == s[..|s| - 1] + [s[|s| - 1]];
      var r := Insert(Sort(s[..|s| - 1], key), s[|s| - 1], key);
      assert |multiset(r)| == |multiset(s)|;
      r
  }

  lemma SortedCons<T>(h: T, r: seq<T>, key: T -> nat)
    requires Sorted(r, key) && forall y :: y in r ==> key(h) <= key(y)
    ensures Sorted([h] + r, key)
  {
  }

  lemma InsertMember<T>(s: seq<T>, x: T, key: T -> nat, y: T)
    requires y in Insert(s, x, key)
    ensures y in s || y == x
  {
    assert y in multiset(Insert(s, x, key));
  }

  lemma {:induction false} InsertSorted<T>(s: seq<T>, x: T, key: T -> nat)
    requires Sorted(s, key)
    ensures Sorted(Insert(s, x, key), key)
  {
    if s != [] && key(x) >= key(s[0]) {
      var r := Insert(s[1..], x, key);
      InsertSorted(s[1..], x, key);
      forall y | y in r ensures key(s[0]) <= key(y) { InsertMember(s[1..], x, key, y); }
      SortedCons(s[0], r, key);
    }
  }

  lemma {:induction false} SortSorted<T>(s: seq<T>, key: T -> nat)
    ensures Sorted(Sort(s, key), key)
  {
    if s != [] {
      SortSorted(s[..|s| - 1], key);
      InsertSorted(Sort(s[..|s| - 1], key), s[|s| - 1], key);
    }
  }

  lemma {:induction false} InsertStrict<T>(s: seq<T>, x: T, key: T -> nat)
    requires StrictlySorted(s, key) && forall y :: y in s ==> key(y) != key(x)
    ensures StrictlySorted(Insert(s, x, key), key)
  {
    if s != [] && key(x) >= key(s[0]) {
      var r := Insert(s[1..], x, key);
      InsertStrict(s[1..], x, key);
      forall y | y in r ensures key(s[0]) < key(y) { InsertMember(s[1..], x, key, y); }
      StrictCons(s[0], r, key);
    }
  }

  ghost predicate DistinctKeys<T>(s: seq<T>, key: T -> nat)
  {
    forall i, j :: 0 <= i < j < |s| ==> key(s[i]) != key(s[j])
  }

  lemma {:induction false} SortStrict<T>(s: seq<T>, key: T -> nat)
    requires DistinctKeys(s, key)
    ensures StrictlySorted(Sort(s, key), key)
  {
    if s != [] {
      var front, x := s[..|s| - 1], s[|s| - 1];
      SortStrict(front, key);
      forall y | y in Sort(front, key) ensures key(y) != key(x) {
        SortMember(front, key, y);
        var i :| 0 <= i < |front| && front[i] == y;
        assert s[i] == y;
      }
      InsertStrict(Sort(front, key), x, key);
    }
  }

  /** The first `n` of a strictly sorted sequence are nearer than everything left out. */
  lemma TakeNearest<T>(s: seq<T>, n: nat, key: T -> nat)
    requires StrictlySorted(s, key)
    ensures StrictlySorted(Take(s, n), key)
    ensures forall x, y :: x in Take(s, n) && y in s && y !in Take(s, n) ==> key(x) < key(y)
  {
    forall x, y | x in Take(s, n) && y in s && y !in Take(s, n) ensures key(x) < key(y) {
      var j :| 0 <= j < |s| && s[j] == y;
      TakeHas(s, n, j);
    }
  }

  lemma TakeHas<T>(s: seq<T>, n: nat, j: nat)
    requires j < |s|
    ensures j < n ==> s[j] in Take(s, n)
  {
    if j < n {
      assert Take(s, n)[j] == s[j];
    }
  }

  lemma SortMember<T>(s: seq<T>, key: T -> nat, x: T)
    ensures x in Sort(s, key) <==> x in s
  {
    assert x in multiset(Sort(s, key)) <==> x in multiset(s);
  }

  /** `dedup_by_key`: of each run of equal keys only the first stays. */
  function Dedup<T>(s: seq<T>, key: T -> nat): seq<T>
    decreases |s|
  {
    if |s| < 2 then s
    else if key(s[0]) == key(s[1]) then Dedup([s[0]] + s[2..], key)
    else [s[0]] + Dedup(s[1..], key)
  }

  /** Into a strictly sorted sequence, unless the key is already there. */
  function Add<T>(s: seq<T>, x: T, key: T -> nat): seq<T>
  {
    if s == [] then [x]
    else if key(x) < key(s[0]) then [x] + s
    else if key(x) == key(s[0]) then s
    else [s[0]] + Add(s[1..], x, key)
  }

  /** The reference: everything heard, in order, each key kept once, first come first kept. */
  function AddAll<T>(s: seq<T>, xs: seq<T>, key: T -> nat): seq<T>
  {
    if xs == [] then s else Add(AddAll(s, xs[..|xs| - 1], key), xs[|xs| - 1], key)
  }

  // ---- sorting then deduplicating is adding one by one ----

  lemma {:induction false} DedupHead<T>(s: seq<T>, key: T -> nat)
    requires s != []
    ensures Dedup(s, key) != [] && Dedup(s, key)[0] == s[0]
    decreases |s|
  {
    if |s| >= 2 && key(s[0]) == key(s[1]) { DedupHead([s[0]] + s[2..], key); }
  }

  lemma {:induction false} DedupInsert<T>(s: seq<T>, x: T, key: T -> nat)
    requires Sorted(s, key)
    ensures Dedup(Insert(s, x, key), key) == Add(Dedup(s, key), x, key)
    decreases |s|
  {
    if s == [] {
    } else if key(x) < key(s[0]) {
      DedupHead(s, key);
      assert ([x] + s)[1..] == s;
    } else if |s| == 1 {
      assert s[1..] == [] && s == [s[0]];
      assert Insert(s, x, key) == [s[0], x];
      assert [s[0], x][2..] == [] && [s[0], x][1..] == [x];
    } else if key(s[0]) == key(s[1]) {
      DedupInsertRun(s, x, key);
    } else {
      DedupInsertNew(s, x, key);
    }
  }

  lemma {:induction false} DedupInsertRun<T>(s: seq<T>, x: T, key: T -> nat)
    requires Sorted(s, key) && |s| >= 2 && key(s[0]) == key(s[1]) && key(x) >= key(s[0])
    ensures Dedup(Insert(s, x, key), key) == Add(Dedup(s, key), x, key)
    decreases |s|, 0
  {
    hide Add;
    hide Insert;
    hide Dedup;
    var t := [s[0]] + s[2..];
    var r := Insert(s[2..], x, key);
    assert s[1..][1..] == s[2..] && t[1..] == s[2..];
    SortedWithout(s, key);
    hide Sorted;
    InsertPast(s, x, key);
    InsertPast(s[1..], x, key);
    InsertPast(t, x, key);
    var i := Insert(s, x, key);
    assert i == [s[0]] + ([s[1]] + r) && i[2..] == r;
    DedupRun(i, key);
    DedupRun(s, key);
    DedupInsert(t, x, key);
  }

  lemma SortedWithout<T>(s: seq<T>, key: T -> nat)
    requires Sorted(s, key) && |s| >= 2
    ensures Sorted([s[0]] + s[2..], key)
  {
  }

  lemma InsertPast<T>(s: seq<T>, x: T, key: T -> nat)
    requires s != [] && key(x) >= key(s[0])
    ensures Insert(s, x, key) == [s[0]] + Insert(s[1..], x, key)
  {
  }

  lemma DedupRun<T>(s: seq<T>, key: T -> nat)
    requires |s| >= 2 && key(s[0]) == key(s[1])
    ensures Dedup(s, key) == Dedup([s[0]] + s[2..], key)
  {
  }

  lemma {:induction false} DedupInsertNew<T>(s: seq<T>, x: T, key: T -> nat)
    requires Sorted(s, key) && |s| >= 2 && key(s[0]) < key(s[1]) && key(x) >= key(s[0])
    ensures Dedup(Insert(s, x, key), key) == Add(Dedup(s, key), x, key)
    decreases |s|, 0
  {
    var r := Insert(s[1..], x, key);
    var i := [s[0]] + r;
    var d := Dedup(s[1..], key);
    assert Dedup(s, key) == [s[0]] + d;
    assert ([s[0]] + d)[1..] == d;
    if key(x) == key(s[0]) {
      assert r == [x] + s[1..];
      assert i[2..] == s[1..] && i[1] == x;
      assert [s[0]] + i[2..] == s;
    } else {
      assert i[1..] == r;
      DedupInsert(s[1..], x, key);
    }
  }

  lemma {:induction false} DedupSort<T>(xs: seq<T>, key: T -> nat)
    ensures Dedup(Sort(xs, key), key) == AddAll([], xs, key)
  {
    if xs != [] {
      var front := xs[..|xs| - 1];
      DedupSort(front, key);
      SortSorted(front, key);
      DedupInsert(Sort(front, key), xs[|xs| - 1], key);
    }
  }

  // ---- truncating never changes the part that is kept ----

  lemma {:induction false} TakeAdd<T>(s: seq<T>, x: T, n: nat, key: T -> nat)
    ensures Take(Add(s, x, key), n) == Take(Add(Take(s, n), x, key), n)
  {
    if s == [] || n == 0 {
    } else if key(x) < key(s[0]) {
      assert Take([x] + s, n) == [x] + Take(s, n - 1);
      assert Take([x] + Take(s, n), n) == [x] + Take(s, n - 1);
    } else if key(x) > key(s[0]) {
      var t := s[1..];
      TakeAdd(t, x, n - 1, key);
      assert Take(s, n) == [s[0]] + Take(t, n - 1);
      assert Take(s, n)[1..] == Take(t, n - 1);
      assert Take([s[0]] + Add(t, x, key), n) == [s[0]] + Take(Add(t, x, key), n - 1);
      var u := Add(Take(t, n - 1), x, key);
      assert Take([s[0]] + u, n) == [s[0]] + Take(u, n - 1);
    }
  }

  lemma {:induction false} TakeAddAll<T>(s: seq<T>, xs: seq<T>, n: nat, key: T -> nat)
    ensures Take(AddAll(s, xs, key), n) == Take(AddAll(Take(s, n), xs, key), n)
  {
    if xs != [] {
      var front, x := xs[..|xs| - 1], xs[|xs| - 1];
      TakeAddAll(s, front, n, key);
      TakeAdd(AddAll(s, front, key), x, n, key);
      TakeAdd(AddAll(Take(s, n), front, key), x, n, key);
    }
  }

  lemma {:induction false} AddAllConcat<T>(s: seq<T>, xs: seq<T>, ys: seq<T>, key: T -> nat)
    ensures AddAll(s, xs + ys, key) == AddAll(AddAll(s, xs, key), ys, key)
  {
    if ys == [] {
      assert xs + ys == xs;
    } else {
      assert (xs + ys)[..|xs + ys| - 1] == xs + ys[..|ys| - 1];
      AddAllConcat(s, xs, ys[..|ys| - 1], key);
    }
  }

  lemma {:induction false} AddLast<T>(s: seq<T>, x: T, key: T -> nat)
    requires forall y :: y in s ==> key(y) < key(x)
    ensures Add(s, x, key) == s + [x]
  {
    if s != [] {
      AddLast(s[1..], x, key);
      assert s == [s[0]] + s[1..];
    }
  }

  lemma {:induction false} AddAllSorted<T>(s: seq<T>, key: T -> nat)
    requires StrictlySorted(s, key)
    ensures AddAll([], s, key) == s
  {
    if s != [] {
      var front := s[..|s| - 1];
      AddAllSorted(front, key);
      AddLast(front, s[|s| - 1], key);
      assert s == front + [s[|s| - 1]];
    }
  }

  /**
   * The incremental form refines the one-shot form: sorting, deduplicating and truncating the
   * truncated list with the new elements gives the truncation of everything ever added.
   */
  lemma ShortlistStep<T>(heard: seq<T>, new': seq<T>, n: nat, key: T -> nat)
    ensures Take(Dedup(Sort(Take(AddAll([], heard, key), n) + new', key), key), n)
         == Take(AddAll([], heard + new', key), n)
  {
    var all := AddAll([], heard, key);
    var s := Take(all, n);
    DedupSort(s + new', key);
    AddAllStrict(heard, key);
    AddAllSorted(s, key);
    AddAllConcat([], s, new', key);
    TakeAddAll(all, new', n, key);
    AddAllConcat([], heard, new', key);
  }

  // ---- what the reference form holds ----

  lemma StrictCons<T>(h: T, r: seq<T>, key: T -> nat)
    requires StrictlySorted(r, key) && forall y :: y in r ==> key(h) < key(y)
    ensures StrictlySorted([h] + r, key)
  {
  }

  lemma {:induction false} AddMember<T>(s: seq<T>, x: T, key: T -> nat, y: T)
    ensures y in Add(s, x, key) ==> y in s || y == x
    ensures y in s ==> y in Add(s, x, key)
  {
    if s != [] && key(x) > key(s[0]) {
      AddMember(s[1..], x, key, y);
      assert s == [s[0]] + s[1..];
    }
  }

  lemma {:induction false} AddStrict<T>(s: seq<T>, x: T, key: T -> nat)
    requires StrictlySorted(s, key)
    ensures StrictlySorted(Add(s, x, key), key)
  {
    if s != [] && key(x) > key(s[0]) {
      AddStrict(s[1..], x, key);
      var r := Add(s[1..], x, key);
      forall y | y in r ensures key(s[0]) < key(y) { AddMember(s[1..], x, key, y); }
      StrictCons(s[0], r, key);
    }
  }

  /** The key is there afterwards; the element itself only if the key was new (or it was there). */
  lemma {:induction false} AddCovers<T>(s: seq<T>, x: T, key: T -> nat)
    requires StrictlySorted(s, key)
    ensures exists y :: y in Add(s, x, key) && key(y) == key(x)
    ensures x in Add(s, x, key) && x !in s ==> forall y :: y in s ==> key(y) != key(x)
  {
    if s == [] {
      assert x in [x];
    } else if key(x) < key(s[0]) {
      assert x in [x] + s;
    } else if key(x) == key(s[0]) {
      assert s[0] in s;
    } else {
      AddCovers(s[1..], x, key);
      var r := Add(s[1..], x, key);
      var y :| y in r && key(y) == key(x);
      assert y in [s[0]] + r;
      assert s == [s[0]] + s[1..];
    }
  }

  lemma {:induction false} AddAllStrict<T>(xs: seq<T>, key: T -> nat)
    ensures StrictlySorted(AddAll([], xs, key), key)
  {
    if xs != [] {
      AddAllStrict(xs[..|xs| - 1], key);
      AddStrict(AddAll([], xs[..|xs| - 1], key), xs[|xs| - 1], key);
    }
  }

  /** `x` is the first element of `xs` with its key. */
  ghost predicate FirstWithKey<T>(xs: seq<T>, x: T, key: T -> nat)
  {
    exists i :: 0 <= i < |xs| && xs[i] == x && forall j :: 0 <= j < i ==> key(xs[j]) != key(x)
  }

  /** Every key heard is in the reference list. */
  lemma {:induction false} AddAllCovers<T>(xs: seq<T>, key: T -> nat, x: T)
    requires x in xs
    ensures exists y :: y in AddAll([], xs, key) && key(y) == key(x)
  {
    var front, last := xs[..|xs| - 1], xs[|xs| - 1];
    var s := AddAll([], front, key);
    if x in front {
      AddAllCovers(front, key, x);
      var y :| y in s && key(y) == key(x);
      AddMember(s, last, key, y);
    } else {
      assert xs == front + [last];
      AddAllStrict(front, key);
      AddCovers(s, last, key);
    }
  }

  /** And what the list holds for a key is the first element heard with that key. */
  lemma {:induction false} AddAllFirst<T>(xs: seq<T>, key: T -> nat, y: T)
    requires y in AddAll([], xs, key)
    ensures FirstWithKey(xs, y, key)
  {
    if xs != [] {
      var front, last := xs[..|xs| - 1], xs[|xs| - 1];
      var s := AddAll([], front, key);
      if y in s {
        AddAllFirst(front, key, y);
        var i :| 0 <= i < |front| && front[i] == y && forall j :: 0 <= j < i ==> key(front[j]) != key(y);
        assert xs[i] == y;
      } else {
        AddMember(s, last, key, y);
        AddAllStrict(front, key);
        AddCovers(s, last, key);
        forall j | 0 <= j < |front| ensures key(front[j]) != key(last) {
          AddAllCovers(front, key, front[j]);
        }
        assert xs[|xs| - 1] == y;
      }
    }
  }
}
