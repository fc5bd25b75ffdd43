/** `sortUsers` and the header toggle of `handleSort`: a three-way
    comparator on one attribute, reversed for descending order, and a sort
    that returns a fresh ordered copy of the list. */
module SortEngine {
  import opened Users

  /** `x` strictly precedes `y` in direction `d`. */
  predicate Before(x: User, y: User, f: Field, d: Direction)
  {
    if d == Asc then Less(Key(x, f), Key(y, f)) else Less(Key(y, f), Key(x, f))
  }

  /** The comparator handed to `Array.prototype.sort`: -1 when `a` goes
      first, 1 when `b` goes first, 0 on equal keys. */
  function Compare(a: User, b: User, f: Field, d: Direction): (r: int)
    ensures r == -1 || r == 0 || r == 1
    ensures r < 0 <==> Before(a, b, f, d)
    ensures r > 0 <==> Before(b, a, f, d)
    ensures r == 0 <==> Key(a, f) == Key(b, f)
  {
    LessAsymmetric(Key(a, f), Key(b, f));
    LessIrreflexive(Key(a, f));
    LessTotal(Key(a, f), Key(b, f));
    if Less(Key(a, f), Key(b, f)) then (if d == Asc then -1 else 1)
    else if Less(Key(b, f), Key(a, f)) then (if d == Asc then 1 else -1)
    else 0
  }

  /** No element is strictly preceded by a later one. */
  ghost predicate Ordered(s: seq<User>, f: Field, d: Direction)
  {
    forall i, j {:trigger Before(s[j], s[i], f, d)} :: 0 <= i < j < |s| ==> !Before(s[j], s[i], f, d)
  }

  /** "Not after" is transitive in either direction. */
  lemma NotBeforeTransitive(x: User, y: User, z: User, f: Field, d: Direction)
    requires !Before(y, x, f, d) && !Before(z, y, f, d)
    ensures !Before(z, x, f, d)
  {
    if d == Asc {
      NotLessTransitive(Key(x, f), Key(y, f), Key(z, f));
    } else {
      NotLessTransitive(Key(z, f), Key(y, f), Key(x, f));
    }
  }

  /** `Before` never holds both ways round. */
  lemma BeforeAsymmetric(x: User, y: User, f: Field, d: Direction)
    ensures Before(x, y, f, d) ==> !Before(y, x, f, d)
  {
    LessAsymmetric(Key(x, f), Key(y, f));
    LessAsymmetric(Key(y, f), Key(x, f));
  }

  /** One pass of insertion sort: `x` goes in front of the first element
      that does not strictly precede it, so it stays ahead of elements
      with an equal key. */
  function Insert(x: User, s: seq<User>, f: Field, d: Direction): (r: seq<User>)
    ensures multiset(r) == multiset(s) + multiset{x}
  {
    if s == [] then [x]
    else if !Before(s[0], x, f, d) then [x] + s
    else
      assert s == [s[0]] + s[1..];
      [s[0]] + Insert(x, s[1..], f, d)
  }

  /** The insertion step moves `x` past `s[0]` exactly when
      `Compare(x, s[0], f, d) > 0`, so on equal keys `x` stays ahead. */
  lemma InsertFollowsComparator(x: User, s: seq<User>, f: Field, d: Direction)
    requires s != []
    ensures Insert(x, s, f, d) ==
      if Compare(x, s[0], f, d) > 0 then [s[0]] + Insert(x, s[1..], f, d) else [x] + s
  {
  }

  /** No element of `s` strictly precedes `y`. */
  ghost predicate NoneBefore(s: seq<User>, y: User, f: Field, d: Direction)
  {
    forall e :: e in s ==> !Before(e, y, f, d)
  }

  /** An ordered list headed by `y` and a tail that never precedes `y` is ordered. */
  lemma {:induction false} ConsOrdered(y: User, t: seq<User>, f: Field, d: Direction)
    requires Ordered(t, f, d) && NoneBefore(t, y, f, d)
    ensures Ordered([y] + t, f, d)
  {
    var r := [y] + t;
    forall i, j | 0 <= i < j < |r| ensures !Before(r[j], r[i], f, d) {
      if i == 0 {
        assert r[j] == t[j - 1];
      } else {
        assert r[i] == t[i - 1] && r[j] == t[j - 1];
      }
    }
  }

  /** Whatever `Insert` places ahead of or after, nothing in the result
      precedes a bound that neither `x` nor `s` precedes. */
  lemma InsertNoneBefore(x: User, s: seq<User>, y: User, f: Field, d: Direction)
    requires NoneBefore(s, y, f, d) && !Before(x, y, f, d)
    ensures NoneBefore(Insert(x, s, f, d), y, f, d)
  {
    var r := Insert(x, s, f, d);
    forall e | e in r ensures !Before(e, y, f, d) {
      assert e in multiset(r);
    }
  }

  /** Inserting into an ordered list keeps it ordered. */
  lemma {:induction false} InsertOrdered(x: User, s: seq<User>, f: Field, d: Direction)
    requires Ordered(s, f, d)
    ensures Ordered(Insert(x, s, f, d), f, d)
  {
    if s == [] {
    } else if !Before(s[0], x, f, d) {
      assert NoneBefore(s, x, f, d) by {
        forall e | e in s ensures !Before(e, x, f, d) {
          var k :| 0 <= k < |s| && s[k] == e;
          if k > 0 { NotBeforeTransitive(x, s[0], e, f, d); }
        }
      }
      ConsOrdered(x, s, f, d);
    } else {
      OrderedTail(s, f, d);
      InsertOrdered(x, s[1..], f, d);
      assert NoneBefore(s[1..], s[0], f, d) by {
        forall e | e in s[1..] ensures !Before(e, s[0], f, d) {
          var k :| 1 <= k < |s| && s[k] == e;
        }
      }
      BeforeAsymmetric(s[0], x, f, d);
      InsertNoneBefore(x, s[1..], s[0], f, d);
      ConsOrdered(s[0], Insert(x, s[1..], f, d), f, d);
    }
  }

  /** Dropping the first element keeps a list ordered. */
  lemma OrderedTail(s: seq<User>, f: Field, d: Direction)
    requires s != [] && Ordered(s, f, d)
    ensures Ordered(s[1..], f, d)
  {
    var tail := s[1..];
    forall i, j | 0 <= i < j < |tail| ensures !Before(tail[j], tail[i], f, d) {
      assert tail[j] == s[j + 1] && tail[i] == s[i + 1];
    }
  }

  /** `sortUsers(users, field, direction)`: an ordered permutation of the
      list; the argument itself is a value and stays as it was. */
  function SortUsers(users: seq<User>, f: Field, d: Direction): (r: seq<User>)
    ensures multiset(r) == multiset(users)
    ensures |r| == |users|
    ensures Ordered(r, f, d)
  {
    if users == [] then []
    else
      assert users == [users[0]] + users[1..];
      InsertOrdered(users[0], SortUsers(users[1..], f, d), f, d);
      Insert(users[0], SortUsers(users[1..], f, d), f, d)
  }

  /** An element that no first element precedes goes to the front. */
  lemma InsertAtFront(x: User, s: seq<User>, f: Field, d: Direction)
    requires s == [] || !Before(s[0], x, f, d)
    ensures Insert(x, s, f, d) == [x] + s
  {
  }

  /** A list already in order is left exactly as it is. */
  lemma {:induction false} SortOrderedIsIdentity(s: seq<User>, f: Field, d: Direction)
    requires Ordered(s, f, d)
    ensures SortUsers(s, f, d) == s
  {
    if s != [] {
      var tail := s[1..];
      OrderedTail(s, f, d);
      SortOrderedIsIdentity(tail, f, d);
      assert tail == [] || !Before(tail[0], s[0], f, d) by {
        if tail != [] { assert tail[0] == s[1]; }
      }
      InsertAtFront(s[0], tail, f, d);
      assert [s[0]] + tail == s;
    }
  }

  /** Sorting twice by the same attribute and direction is sorting once. */
  lemma SortIdempotent(users: seq<User>, f: Field, d: Direction)
    ensures SortUsers(SortUsers(users, f, d), f, d) == SortUsers(users, f, d)
  {
    SortOrderedIsIdentity(SortUsers(users, f, d), f, d);
  }

  /** The users of `s` whose attribute `f` is `k`, in list order. */
  function WithKey(s: seq<User>, f: Field, k: string): (r: seq<User>)
    ensures |r| <= |s|
    ensures forall i :: 0 <= i < |r| ==> Key(r[i], f) == k
  {
    if s == [] then []
    else if Key(s[0], f) == k then [s[0]] + WithKey(s[1..], f, k)
    else WithKey(s[1..], f, k)
  }

  /** The insertion step only passes users that strictly precede `x`, so
      among users sharing a key, `x` keeps its place ahead of the rest. */
  lemma {:induction false} InsertKeepsTies(x: User, s: seq<User>, f: Field, d: Direction, k: string)
    ensures WithKey(Insert(x, s, f, d), f, k) == WithKey([x] + s, f, k)
  {
    if s != [] && Before(s[0], x, f, d) {
      var rest := Insert(x, s[1..], f, d);
      InsertKeepsTies(x, s[1..], f, d, k);
      assert ([s[0]] + rest)[1..] == rest;
      assert ([x] + s)[1..] == s;
      assert ([x] + s[1..])[1..] == s[1..];
      if Key(s[0], f) == k {
        LessIrreflexive(k);
        assert Key(x, f) != k;
      }
    }
  }

  /** `SortUsers` is stable, as ES2019 requires of `Array.prototype.sort`:
      users with equal keys keep their input order. */
  lemma {:induction false} SortStable(users: seq<User>, f: Field, d: Direction, k: string)
    ensures WithKey(SortUsers(users, f, d), f, k) == WithKey(users, f, k)
  {
    if users != [] {
      var tail := users[1..];
      SortStable(tail, f, d, k);
      InsertKeepsTies(users[0], SortUsers(tail, f, d), f, d, k);
      assert ([users[0]] + SortUsers(tail, f, d))[1..] == SortUsers(tail, f, d);
      assert ([users[0]] + tail)[1..] == tail;
      assert users == [users[0]] + tail;
    }
  }

  /** The attribute values of a list, in list order: what a reader of
      the sorted column sees. */
  function Keys(s: seq<User>, f: Field): (r: seq<string>)
    ensures |r| == |s|
  {
    seq(|s|, i requires 0 <= i < |s| => Key(s[i], f))
  }

  /** The list back to front: the reference list against which the
      descending sort is compared with the ascending one. */
  function Reverse(s: seq<User>): (r: seq<User>)
    ensures |r| == |s|
    ensures forall i :: 0 <= i < |s| ==> r[i] == s[|s| - 1 - i]
    ensures multiset(r) == multiset(s)
  {
    if s == [] then []
    else
      assert s == [s[0]] + s[1..];
      Reverse(s[1..]) + [s[0]]
  }

  /** Neither of two elements precedes the other only when their keys agree. */
  lemma UnorderedMeansEqualKeys(x: User, y: User, f: Field, d: Direction)
    requires !Before(x, y, f, d) && !Before(y, x, f, d)
    ensures Key(x, f) == Key(y, f)
  {
    LessTotal(Key(x, f), Key(y, f));
  }

  /** Reading an ascending list backwards gives a descending one. */
  lemma ReverseAscendingIsDescending(s: seq<User>, f: Field)
    requires Ordered(s, f, Asc)
    ensures Ordered(Reverse(s), f, Desc)
  {
    var r := Reverse(s);
    forall i, j | 0 <= i < j < |r| ensures !Before(r[j], r[i], f, Desc) {
      assert r[j] == s[|s| - 1 - j] && r[i] == s[|s| - 1 - i];
      assert !Before(s[|s| - 1 - i], s[|s| - 1 - j], f, Asc);
    }
  }

  /** Removing one element keeps a list ordered. */
  lemma OrderedRemove(s: seq<User>, j: nat, f: Field, d: Direction)
    requires j < |s| && Ordered(s, f, d)
    ensures Ordered(s[..j] + s[j + 1..], f, d)
  {
    var r := s[..j] + s[j + 1..];
    forall p, q | 0 <= p < q < |r| ensures !Before(r[q], r[p], f, d) {
      var p' := if p < j then p else p + 1;
      var q' := if q < j then q else q + 1;
      assert r[p] == s[p'] && r[q] == s[q'];
    }
  }

  /** In an ordered list, every element up to position `j` whose first
      and `j`-th elements share a key has that key too. */
  lemma OrderedPrefixSameKey(s: seq<User>, j: nat, f: Field, d: Direction)
    requires j < |s| && Ordered(s, f, d) && Key(s[0], f) == Key(s[j], f)
    ensures forall k :: 0 <= k <= j ==> Key(s[k], f) == Key(s[0], f)
  {
    forall k | 0 < k <= j ensures Key(s[k], f) == Key(s[0], f) {
      assert !Before(s[k], s[0], f, d);
      if k < j {
        assert !Before(s[j], s[k], f, d);
      }
      UnorderedMeansEqualKeys(s[k], s[0], f, d);
    }
  }

  /** Taking out one occurrence of `b[j]` takes it out of the multiset. */
  lemma MultisetRemove(b: seq<User>, j: nat)
    requires j < |b|
    ensures multiset(b) == multiset(b[..j] + b[j + 1..]) + multiset{b[j]}
  {
    assert b == b[..j] + [b[j]] + b[j + 1..];
  }

  /** The same element added to two multisets leaves them equal only if
      they were equal. */
  lemma MultisetCancel(m: multiset<User>, n: multiset<User>, x: User)
    requires m + multiset{x} == n + multiset{x}
    ensures m == n
  {
    assert forall y :: m[y] == (m + multiset{x})[y] - multiset{x}[y];
  }

  /** When the first `j + 1` keys of `b` are all `key`, dropping `b[j]`
      removes one copy of that key from the front of the column. */
  lemma KeysAfterRemove(b: seq<User>, j: nat, f: Field, key: string)
    requires j < |b|
    requires forall k :: 0 <= k <= j ==> Key(b[k], f) == key
    ensures Keys(b, f) == [key] + Keys(b[..j] + b[j + 1..], f)
  {
    var b' := b[..j] + b[j + 1..];
    var r := [key] + Keys(b', f);
    forall m | 0 <= m < |b| ensures Keys(b, f)[m] == r[m] {
      if 0 < m <= j {
        assert b'[m - 1] == b[m - 1];
      } else if m > j {
        assert b'[m - 1] == b[m];
      }
    }
  }

  /** For two orderings of the same users, the first user of one sits at
      some position `j` of the other, and everything up to there shares
      its key. */
  lemma MatchHead(a: seq<User>, b: seq<User>, f: Field, d: Direction) returns (j: nat)
    requires a != [] && Ordered(a, f, d) && Ordered(b, f, d)
    requires multiset(a) == multiset(b)
    ensures j < |b| && b[j] == a[0]
    ensures forall k :: 0 <= k <= j ==> Key(b[k], f) == Key(a[0], f)
    ensures multiset(b[..j] + b[j + 1..]) == multiset(a[1..])
  {
    assert a[0] in multiset(b) && b[0] in multiset(a);
    j :| 0 <= j < |b| && b[j] == a[0];
    var i :| 0 <= i < |a| && a[i] == b[0];
    assert !Before(a[i], a[0], f, d) by {
      if i == 0 { LessIrreflexive(Key(a[0], f)); }
    }
    assert !Before(b[j], b[0], f, d) by {
      if j == 0 { LessIrreflexive(Key(b[0], f)); }
    }
    UnorderedMeansEqualKeys(a[0], b[0], f, d);
    OrderedPrefixSameKey(b, j, f, d);
    MultisetRemove(b, j);
    assert multiset(a) == multiset(a[1..]) + multiset{a[0]} by {
      assert a == [a[0]] + a[1..];
    }
    MultisetCancel(multiset(b[..j] + b[j + 1..]), multiset(a[1..]), a[0]);
  }

  /** Two orderings of the same users by the same attribute and direction
      show the same column of keys: they can differ only in how users with
      equal keys are arranged. */
  lemma {:induction false} OrderedPermutationsShareKeys(a: seq<User>, b: seq<User>, f: Field, d: Direction)
    requires Ordered(a, f, d) && Ordered(b, f, d)
    requires multiset(a) == multiset(b)
    ensures Keys(a, f) == Keys(b, f)
    decreases |a|
  {
    assert |a| == |multiset(a)| == |multiset(b)| == |b|;
    if a != [] {
      var j := MatchHead(a, b, f, d);
      OrderedRemove(b, j, f, d);
      OrderedTail(a, f, d);
      OrderedPermutationsShareKeys(a[1..], b[..j] + b[j + 1..], f, d);
      KeysAfterRemove(b, j, f, Key(a[0], f));
      KeysAfterRemove(a, 0, f, Key(a[0], f));
    }
  }

  /** Sorting descending shows the ascending column read backwards; only
      the arrangement of users with equal keys may differ. */
  lemma DescendingIsReversedAscending(users: seq<User>, f: Field)
    ensures Keys(SortUsers(users, f, Desc), f) == Keys(Reverse(SortUsers(users, f, Asc)), f)
  {
    var asc := SortUsers(users, f, Asc);
    ReverseAscendingIsDescending(asc, f);
    OrderedPermutationsShareKeys(SortUsers(users, f, Desc), Reverse(asc), f, Desc);
  }

  /** The pair of state variables `handleSort` updates together. */
  datatype SortState = SortState(field: Field, direction: Direction)

  function Flip(d: Direction): Direction
  {
    if d == Asc then Desc else Asc
  }

  /** `handleSort(field)`: the clicked field becomes active; the direction
      becomes descending exactly when that field was already active and
      ascending. */
  function NextSort(s: SortState, clicked: Field): (r: SortState)
    ensures r.field == clicked
    ensures s.field == clicked ==> r.direction == Flip(s.direction)
    ensures s.field != clicked ==> r.direction == Asc
  {
    var isAsc := s.field == clicked && s.direction == Asc;
    SortState(clicked, if isAsc then Desc else Asc)
  }

  /** The sort state after `n` clicks on the same header. */
  function Clicks(s: SortState, f: Field, n: nat): SortState
  {
    if n == 0 then s else NextSort(Clicks(s, f, n - 1), f)
  }

  /** Repeated clicks on one header alternate asc, desc, asc, ...,
      starting from whatever the first click chose. */
  lemma {:induction false} ClicksAlternate(s: SortState, f: Field, n: nat)
    requires n >= 1
    ensures Clicks(s, f, n).field == f
    ensures Clicks(s, f, n).direction ==
      if n % 2 == 1 then NextSort(s, f).direction else Flip(NextSort(s, f).direction)
  {
    if n > 1 {
      ClicksAlternate(s, f, n - 1);
    }
  }

  /** Two clicks on the active header restore the sort state. */
  lemma {:induction false} TwoClicksOnActiveFieldRestore(s: SortState)
    ensures Clicks(s, s.field, 2) == s
  {
    ClicksAlternate(s, s.field, 2);
  }
}
