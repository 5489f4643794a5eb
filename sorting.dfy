/** The stable sort the admin screens apply to students (Collections.sort with a
    comparator, as Controller/AdminController.java uses it). Collections.sort is a
    library call; it is modelled by a stable insertion sort over keys computed up front,
    and any stable sort gives the same list (SortedStableUnique), so the model fixes the
    library's result. */
module StudentSort {
  import opened Common
  import opened Model

  /** The two comparators of AdminController. */
  datatype StudentOrder = ByName | ByAge(today: Date)

  /** What a comparator compares: the full name, or the age on `today`. */
  datatype SortKey = NameKey(name: string) | AgeKey(age: int)

  function KeyOf(s: Student, order: StudentOrder): SortKey
    reads s
  {
    match order
    case ByName => NameKey(s.FullName())
    case ByAge(today) => AgeKey(s.Age(today))
  }

  /** The key of every student of the list, computed once before sorting; the sort
      reads nothing else. */
  function Keys(students: seq<Student>, order: StudentOrder): (keys: map<Student, SortKey>)
    reads students
    ensures forall s :: s in students ==> s in keys && keys[s] == KeyOf(s, order)
    ensures forall s :: s in keys ==> s in students
  {
    map s | s in students :: KeyOf(s, order)
  }

  /** The key the sort uses for x. */
  function Key<T(==)>(keys: map<T, SortKey>, x: T): SortKey {
    if x in keys then keys[x] else NameKey([])
  }

  /** `compare(a, b) < 0`: String.compareTo on names, Integer.compare on ages. Keys of
      different kinds never meet in one sort; they are ordered names first only so that
      the relation is total. */
  predicate KeyLess(a: SortKey, b: SortKey) {
    match (a, b)
    case (NameKey(x), NameKey(y)) => LexLess(x, y)
    case (AgeKey(x), AgeKey(y)) => x < y
    case (NameKey(_), AgeKey(_)) => true
    case (AgeKey(_), NameKey(_)) => false
  }

  lemma KeyLessIrreflexive(a: SortKey)
    ensures !KeyLess(a, a)
  {
    if a.NameKey? { LexLessIrreflexive(a.name); }
  }

  lemma KeyLessTransitive(a: SortKey, b: SortKey, c: SortKey)
    requires KeyLess(a, b) && KeyLess(b, c)
    ensures KeyLess(a, c)
  {
    if a.NameKey? && b.NameKey? && c.NameKey? { LexLessTransitive(a.name, b.name, c.name); }
  }

  /** Two keys neither of which comes first are equal. */
  lemma KeyLessTotal(a: SortKey, b: SortKey)
    ensures a == b || KeyLess(a, b) || KeyLess(b, a)
  {
    if a.NameKey? && b.NameKey? { LexLessTotal(a.name, b.name); }
  }

  /** Ascending by key: no later element comes strictly before an earlier one. */
  predicate Sorted<T(==)>(t: seq<T>, keys: map<T, SortKey>) {
    forall i, j :: 0 <= i < j < |t| ==> !KeyLess(Key(keys, t[j]), Key(keys, t[i]))
  }

  /** The elements of t, in order, whose key is k. A sort is stable when it leaves this
      list alone for every k. */
  function WithKey<T(==)>(t: seq<T>, k: SortKey, keys: map<T, SortKey>): seq<T> {
    if t == [] then []
    else (if Key(keys, t[0]) == k then [t[0]] else []) + WithKey(t[1..], k, keys)
  }

  /** x goes after every element that does not come strictly after it. */
  function Insert<T(==)>(t: seq<T>, x: T, keys: map<T, SortKey>): seq<T> {
    if t == [] then [x]
    else if KeyLess(Key(keys, x), Key(keys, t[0])) then [x] + t
    else [t[0]] + Insert(t[1..], x, keys)
  }

  /** Insertion sort: the prefix sorted, then the last element inserted. */
  function Sort<T(==)>(s: seq<T>, keys: map<T, SortKey>): seq<T> {
    if s == [] then [] else Insert(Sort(s[..|s| - 1], keys), s[|s| - 1], keys)
  }

  // ---------------------------------------------------------------------------
  // Permutation

  lemma {:induction false} InsertPermutation<T>(t: seq<T>, x: T, keys: map<T, SortKey>)
    ensures multiset(Insert(t, x, keys)) == multiset(t) + multiset{x}
  {
    if t != [] && !KeyLess(Key(keys, x), Key(keys, t[0])) {
      InsertPermutation(t[1..], x, keys);
      assert t == [t[0]] + t[1..];
    }
  }

  lemma {:induction false} SortPermutation<T>(s: seq<T>, keys: map<T, SortKey>)
    ensures multiset(Sort(s, keys)) == multiset(s)
  {
    if s != [] {
      SortPermutation(s[..|s| - 1], keys);
      InsertPermutation(Sort(s[..|s| - 1], keys), s[|s| - 1], keys);
      assert s == s[..|s| - 1] + [s[|s| - 1]];
    }
  }

  // ---------------------------------------------------------------------------
  // Sortedness

  /** In a sorted list the first key is the smallest. */
  lemma SortedFirstSmallest<T>(t: seq<T>, keys: map<T, SortKey>, j: int)
    requires Sorted(t, keys) && 0 <= j < |t|
    ensures !KeyLess(Key(keys, t[j]), Key(keys, t[0]))
  {
    if j == 0 {
      KeyLessIrreflexive(Key(keys, t[0]));
    }
  }

  /** x placed before the first element because its key is smaller keeps the list sorted. */
  lemma InsertSortedInFront<T>(t: seq<T>, x: T, keys: map<T, SortKey>)
    requires Sorted(t, keys) && t != [] && KeyLess(Key(keys, x), Key(keys, t[0]))
    ensures Sorted([x] + t, keys)
  {
    var r := [x] + t;
    var kx, k0 := Key(keys, x), Key(keys, t[0]);
    forall j | 1 <= j < |r|
      ensures !KeyLess(Key(keys, r[j]), kx)
    {
      assert r[j] == t[j - 1];
      SortedFirstSmallest(t, keys, j - 1);
      var kj := Key(keys, t[j - 1]);
      KeyLessTotal(kj, k0);
      if KeyLess(k0, kj) {
        KeyLessTransitive(kx, k0, kj);
      }
      KeyLessIrreflexive(kx);
      if KeyLess(kj, kx) {
        KeyLessTransitive(kx, kj, kx);
      }
    }
  }

  /** The first element, kept in front, does not come after anything inserted behind it. */
  lemma InsertSortedBehind<T>(t: seq<T>, x: T, keys: map<T, SortKey>, rest: seq<T>)
    requires Sorted(t, keys) && t != [] && !KeyLess(Key(keys, x), Key(keys, t[0]))
    requires Sorted(rest, keys) && multiset(rest) == multiset(t[1..]) + multiset{x}
    ensures Sorted([t[0]] + rest, keys)
  {
    var r := [t[0]] + rest;
    forall j | 1 <= j < |r|
      ensures !KeyLess(Key(keys, r[j]), Key(keys, t[0]))
    {
      var e := rest[j - 1];
      assert r[j] == e;
      assert e in multiset(rest);
      if e != x {
        assert e in multiset(t[1..]);
        var n :| 0 <= n < |t[1..]| && t[1..][n] == e;
        SortedFirstSmallest(t, keys, n + 1);
      }
    }
    forall i, j | 0 <= i < j < |r|
      ensures !KeyLess(Key(keys, r[j]), Key(keys, r[i]))
    {
      if i > 0 {
        assert r[i] == rest[i - 1] && r[j] == rest[j - 1];
      }
    }
  }

  lemma {:induction false} InsertSorted<T>(t: seq<T>, x: T, keys: map<T, SortKey>)
    requires Sorted(t, keys)
    ensures Sorted(Insert(t, x, keys), keys)
  {
    if t == [] {
    } else if KeyLess(Key(keys, x), Key(keys, t[0])) {
      InsertSortedInFront(t, x, keys);
    } else {
      InsertSorted(t[1..], x, keys);
      InsertPermutation(t[1..], x, keys);
      InsertSortedBehind(t, x, keys, Insert(t[1..], x, keys));
    }
  }

  lemma {:induction false} SortSorted<T>(s: seq<T>, keys: map<T, SortKey>)
    ensures Sorted(Sort(s, keys), keys)
  {
    if s != [] {
      SortSorted(s[..|s| - 1], keys);
      InsertSorted(Sort(s[..|s| - 1], keys), s[|s| - 1], keys);
    }
  }

  // ---------------------------------------------------------------------------
  // Stability

  lemma {:induction false} WithKeyAppend<T>(t: seq<T>, x: T, k: SortKey, keys: map<T, SortKey>)
    ensures WithKey(t + [x], k, keys) == WithKey(t, k, keys) + (if Key(keys, x) == k then [x] else [])
  {
    if t == [] {
      assert [x][1..] == [];
      assert WithKey([x], k, keys) == (if Key(keys, x) == k then [x] else []) + WithKey([], k, keys);
    } else {
      var u := t + [x];
      assert u[0] == t[0];
      assert u[1..] == t[1..] + [x];
      WithKeyAppend(t[1..], x, k, keys);
      assert WithKey(u, k, keys) == (if Key(keys, t[0]) == k then [t[0]] else []) + WithKey(t[1..] + [x], k, keys);
    }
  }

  /** No element of a sorted list has a key strictly below its first key. */
  lemma {:induction false} WithKeyBelowFirst<T>(t: seq<T>, k: SortKey, keys: map<T, SortKey>, i: nat)
    requires Sorted(t, keys) && t != [] && KeyLess(k, Key(keys, t[0])) && i <= |t|
    ensures WithKey(t[i..], k, keys) == []
    decreases |t| - i
  {
    if i < |t| {
      SortedFirstSmallest(t, keys, i);
      assert t[i..][1..] == t[i + 1..];
      WithKeyBelowFirst(t, k, keys, i + 1);
    }
  }

  lemma WithKeyCons<T>(x: T, t: seq<T>, k: SortKey, keys: map<T, SortKey>)
    ensures WithKey([x] + t, k, keys) == (if Key(keys, x) == k then [x] else []) + WithKey(t, k, keys)
  {
    assert ([x] + t)[0] == x && ([x] + t)[1..] == t;
  }

  /** x placed in front of a sorted list whose first key is above x's comes after
      every element with its own key, since there are none. */
  lemma InsertStableInFront<T>(t: seq<T>, x: T, k: SortKey, keys: map<T, SortKey>)
    requires Sorted(t, keys) && t != [] && KeyLess(Key(keys, x), Key(keys, t[0]))
    ensures WithKey([x] + t, k, keys) == WithKey(t, k, keys) + (if Key(keys, x) == k then [x] else [])
  {
    WithKeyCons(x, t, k, keys);
    if Key(keys, x) == k {
      WithKeyBelowFirst(t, k, keys, 0);
      assert t[0..] == t;
    }
  }

  /** Inserting into a sorted list puts x after every element with the same key. */
  lemma {:induction false} InsertStable<T>(t: seq<T>, x: T, k: SortKey, keys: map<T, SortKey>)
    requires Sorted(t, keys)
    ensures WithKey(Insert(t, x, keys), k, keys) == WithKey(t, k, keys) + (if Key(keys, x) == k then [x] else [])
  {
    if t == [] {
      WithKeyCons(x, [], k, keys);
      assert [x] + [] == [x];
    } else if KeyLess(Key(keys, x), Key(keys, t[0])) {
      assert Insert(t, x, keys) == [x] + t;
      InsertStableInFront(t, x, k, keys);
    } else {
      assert Sorted(t[1..], keys);
      InsertStable(t[1..], x, k, keys);
      var rest := Insert(t[1..], x, keys);
      assert Insert(t, x, keys) == [t[0]] + rest;
      assert [t[0]] + t[1..] == t;
      WithKeyConsAppend(t[0], rest, t[1..], k, keys, if Key(keys, x) == k then [x] else []);
    }
  }

  /** An element put in front of two lists whose selections differ by a suffix keeps
      them differing by that suffix. */
  lemma WithKeyConsAppend<T>(y: T, rest: seq<T>, u: seq<T>, k: SortKey, keys: map<T, SortKey>, c: seq<T>)
    requires WithKey(rest, k, keys) == WithKey(u, k, keys) + c
    ensures WithKey([y] + rest, k, keys) == WithKey([y] + u, k, keys) + c
  {
    WithKeyCons(y, rest, k, keys);
    WithKeyCons(y, u, k, keys);
    var a := if Key(keys, y) == k then [y] else [];
    assert a + (WithKey(u, k, keys) + c) == (a + WithKey(u, k, keys)) + c;
  }

  lemma {:induction false} SortStable<T>(s: seq<T>, k: SortKey, keys: map<T, SortKey>)
    ensures WithKey(Sort(s, keys), k, keys) == WithKey(s, k, keys)
  {
    if s != [] {
      var init, last := s[..|s| - 1], s[|s| - 1];
      var sorted := Sort(init, keys);
      assert Sort(s, keys) == Insert(sorted, last, keys);
      SortStable(init, k, keys);
      SortSorted(init, keys);
      InsertStable(sorted, last, k, keys);
      assert s == init + [last];
      WithKeyAppend(init, last, k, keys);
    }
  }

  // ---------------------------------------------------------------------------
  // Uniqueness: a sorted, stable rearrangement is the insertion sort's result

  /** The list of elements with key k is empty exactly when no element has key k. */
  lemma {:induction false} WithKeyMember<T>(t: seq<T>, k: SortKey, keys: map<T, SortKey>)
    ensures WithKey(t, k, keys) != [] <==> exists j :: 0 <= j < |t| && Key(keys, t[j]) == k
  {
    if t != [] {
      WithKeyMember(t[1..], k, keys);
      if exists j :: 0 <= j < |t[1..]| && Key(keys, t[1..][j]) == k {
        var j :| 0 <= j < |t[1..]| && Key(keys, t[1..][j]) == k;
        assert Key(keys, t[j + 1]) == k;
      }
      if exists j :: 0 <= j < |t| && Key(keys, t[j]) == k {
        var j :| 0 <= j < |t| && Key(keys, t[j]) == k;
        if j > 0 {
          assert Key(keys, t[1..][j - 1]) == k;
        }
      }
    }
  }

  /** The first element's key has at least that element. */
  lemma WithKeyNonEmpty<T>(t: seq<T>, keys: map<T, SortKey>)
    ensures t != [] ==> WithKey(t, Key(keys, t[0]), keys) != []
  {
  }

  /** The first key of a sorted list is fixed by its lists of elements per key. */
  lemma SameFirstKey<T>(a: seq<T>, b: seq<T>, keys: map<T, SortKey>)
    requires Sorted(a, keys) && Sorted(b, keys) && a != [] && b != []
    requires forall k :: WithKey(a, k, keys) == WithKey(b, k, keys)
    ensures Key(keys, a[0]) == Key(keys, b[0])
  {
    var ka, kb := Key(keys, a[0]), Key(keys, b[0]);
    WithKeyMember(a, ka, keys);
    WithKeyMember(b, ka, keys);
    assert WithKey(a, ka, keys) == WithKey(b, ka, keys);
    var j :| 0 <= j < |b| && Key(keys, b[j]) == ka;
    SortedFirstSmallest(b, keys, j);
    WithKeyMember(b, kb, keys);
    WithKeyMember(a, kb, keys);
    assert WithKey(a, kb, keys) == WithKey(b, kb, keys);
    var i :| 0 <= i < |a| && Key(keys, a[i]) == kb;
    SortedFirstSmallest(a, keys, i);
    KeyLessTotal(ka, kb);
  }

  /** Two sorted lists whose elements per key agree are equal; so every stable sort of
      a list returns Sort of it. */
  lemma {:induction false} SortedStableUnique<T>(a: seq<T>, b: seq<T>, keys: map<T, SortKey>)
    requires Sorted(a, keys) && Sorted(b, keys)
    requires forall k :: WithKey(a, k, keys) == WithKey(b, k, keys)
    ensures a == b
  {
    if a == [] && b != [] {
      WithKeyNonEmpty(b, keys);
      assert false;
    } else if a != [] && b == [] {
      WithKeyNonEmpty(a, keys);
      assert false;
    } else if a != [] {
      SameFirstKey(a, b, keys);
      assert a == [a[0]] + a[1..] && b == [b[0]] + b[1..];
      var k0 := Key(keys, a[0]);
      WithKeyCons(a[0], a[1..], k0, keys);
      WithKeyCons(b[0], b[1..], k0, keys);
      assert WithKey(a, k0, keys) == WithKey(b, k0, keys);
      assert a[0] == WithKey(a, k0, keys)[0] == b[0];
      forall k
        ensures WithKey(a[1..], k, keys) == WithKey(b[1..], k, keys)
      {
        assert WithKey(a, k, keys) == WithKey(b, k, keys);
        WithKeyCons(a[0], a[1..], k, keys);
        WithKeyCons(b[0], b[1..], k, keys);
        if k == k0 {
          assert WithKey(a, k, keys) == [a[0]] + WithKey(a[1..], k, keys);
          assert WithKey(b, k, keys) == [b[0]] + WithKey(b[1..], k, keys);
          assert WithKey(a[1..], k, keys) == WithKey(a, k, keys)[1..];
          assert WithKey(b[1..], k, keys) == WithKey(b, k, keys)[1..];
        } else {
          assert Key(keys, b[0]) == k0;
          assert WithKey(a, k, keys) == WithKey(a[1..], k, keys);
          assert WithKey(b, k, keys) == WithKey(b[1..], k, keys);
        }
      }
      SortedStableUnique(a[1..], b[1..], keys);
    }
  }

  /** The sort's result is a sorted, stable permutation of its input, and it is the only
      list that is sorted and stable. */
  lemma SortCorrect<T>(s: seq<T>, keys: map<T, SortKey>, other: seq<T>)
    ensures multiset(Sort(s, keys)) == multiset(s)
    ensures Sorted(Sort(s, keys), keys)
    ensures forall k :: WithKey(Sort(s, keys), k, keys) == WithKey(s, k, keys)
    ensures Sorted(other, keys) && (forall k :: WithKey(other, k, keys) == WithKey(s, k, keys)) ==>
      other == Sort(s, keys)
  {
    SortPermutation(s, keys);
    SortSorted(s, keys);
    forall k
      ensures WithKey(Sort(s, keys), k, keys) == WithKey(s, k, keys)
    {
      SortStable(s, k, keys);
    }
    if Sorted(other, keys) && (forall k :: WithKey(other, k, keys) == WithKey(s, k, keys)) {
      SortedStableUnique(other, Sort(s, keys), keys);
    }
  }
}
