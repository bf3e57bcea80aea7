/**
 * `sortBy(xs, 'createdAt')`: a stable sort of a message list by its
 * `createdAt` key, written as an insertion sort that places each entry after
 * every earlier entry whose key is not greater than its own.
 */
module StableSort {
  import opened Wrappers
  import opened KeyOrder
  import opened Messages

  /** How many leading entries of `t` have a key no greater than `m`'s: the
      position at which a stable insertion places `m`. */
  function Ahead(t: seq<Message>, m: Message): (p: nat)
    ensures p <= |t|
    ensures forall i :: 0 <= i < p ==> KeyLe(t[i].createdAt, m.createdAt)
    ensures p < |t| ==> !KeyLe(t[p].createdAt, m.createdAt)
  {
    if t == [] then 0
    else if KeyLe(t[0].createdAt, m.createdAt) then 1 + Ahead(t[1..], m)
    else 0
  }

  /** The two properties in `Ahead`'s contract determine it. */
  lemma AheadExact(t: seq<Message>, m: Message, k: nat)
    requires k <= |t|
    requires forall i :: 0 <= i < k ==> KeyLe(t[i].createdAt, m.createdAt)
    requires k < |t| ==> !KeyLe(t[k].createdAt, m.createdAt)
    ensures Ahead(t, m) == k
  {
  }

  /** In a sorted list, every entry from `Ahead(t, m)` on has a key strictly
      greater than `m`'s. */
  lemma AheadRest(t: seq<Message>, m: Message)
    requires Sorted(t)
    ensures forall i :: Ahead(t, m) <= i < |t| ==>
      !KeyLe(t[i].createdAt, m.createdAt) && KeyLe(m.createdAt, t[i].createdAt)
  {
    var p := Ahead(t, m);
    forall i | p <= i < |t|
      ensures !KeyLe(t[i].createdAt, m.createdAt) && KeyLe(m.createdAt, t[i].createdAt)
    {
      KeyLeTotal(t[p].createdAt, m.createdAt);
      KeyLeReflexive(t[p].createdAt);
      KeyLeTransitive(m.createdAt, t[p].createdAt, t[i].createdAt);
      if KeyLe(t[i].createdAt, m.createdAt) {
        KeyLeTransitive(t[p].createdAt, t[i].createdAt, m.createdAt);
      }
    }
  }

  /** Insert `m` into the list `t` after the leading entries whose key is not
      greater than its own; in a sorted list, after every such entry. */
  function Insert(t: seq<Message>, m: Message): seq<Message>
  {
    var p := Ahead(t, m);
    t[..p] + [m] + t[p..]
  }

  /** Insertion keeps a list sorted. */
  lemma InsertKeepsSorted(t: seq<Message>, m: Message)
    requires Sorted(t)
    ensures Sorted(Insert(t, m))
  {
    AheadRest(t, m);
  }

  /** Insertion adds exactly the one entry. */
  lemma InsertAddsOne(t: seq<Message>, m: Message)
    ensures multiset(Insert(t, m)) == multiset(t) + multiset{m}
  {
    var p := Ahead(t, m);
    assert t == t[..p] + t[p..];
  }

  /** The stable sort by `createdAt`: each entry in turn is inserted into the
      sorted list of the entries before it. */
  function SortByCreatedAt(s: seq<Message>): seq<Message>
  {
    if s == [] then []
    else
      var n := |s| - 1;
      Insert(SortByCreatedAt(s[..n]), s[n])
  }

  /** The sort's result is sorted and is a permutation of its input. */
  lemma {:induction false} SortByCreatedAtSpec(s: seq<Message>)
    ensures Sorted(SortByCreatedAt(s))
    ensures multiset(SortByCreatedAt(s)) == multiset(s)
  {
    if s != [] {
      var n := |s| - 1;
      SortByCreatedAtSpec(s[..n]);
      InsertKeepsSorted(SortByCreatedAt(s[..n]), s[n]);
      InsertAddsOne(SortByCreatedAt(s[..n]), s[n]);
      assert s == s[..n] + [s[n]];
    }
  }

  /** Sorting a list with one more entry at the end inserts that entry into
      the sorted list. */
  lemma SortSnoc(s: seq<Message>, m: Message)
    ensures SortByCreatedAt(s + [m]) == Insert(SortByCreatedAt(s), m)
  {
    assert (s + [m])[..|s|] == s;
  }

  /** Stable insertion into a sorted list splits it into the entries whose
      key is not greater than the new one's and the rest. */
  lemma InsertSplit(t: seq<Message>, m: Message) returns (a: seq<Message>, b: seq<Message>)
    requires Sorted(t)
    ensures t == a + b
    ensures Insert(t, m) == a + [m] + b
    ensures forall i :: 0 <= i < |a| ==> KeyLe(a[i].createdAt, m.createdAt)
    ensures forall i :: 0 <= i < |b| ==> !KeyLe(b[i].createdAt, m.createdAt)
  {
    AheadRest(t, m);
    var q := Ahead(t, m);
    a, b := t[..q], t[q..];
    assert t == a + b;
    forall i | 0 <= i < |b| ensures !KeyLe(b[i].createdAt, m.createdAt) {
      assert b[i] == t[q + i];
    }
  }

  /** Sorting with one more entry at the end puts that entry after exactly
      the entries whose key is not greater than its own, leaving the others
      in place. */
  lemma SortSnocSplit(s: seq<Message>, m: Message) returns (a: seq<Message>, b: seq<Message>)
    ensures SortByCreatedAt(s) == a + b
    ensures SortByCreatedAt(s + [m]) == a + [m] + b
    ensures forall i :: 0 <= i < |a| ==> KeyLe(a[i].createdAt, m.createdAt)
    ensures forall i :: 0 <= i < |b| ==> !KeyLe(b[i].createdAt, m.createdAt)
  {
    SortByCreatedAtSpec(s);
    SortSnoc(s, m);
    a, b := InsertSplit(SortByCreatedAt(s), m);
  }

  /** A list that is already sorted is left as it is. */
  lemma {:induction false} SortedFixpoint(t: seq<Message>)
    requires Sorted(t)
    ensures SortByCreatedAt(t) == t
  {
    if t != [] {
      var n := |t| - 1;
      SortedFixpoint(t[..n]);
      SortSnoc(t[..n], t[n]);
      assert t == t[..n] + [t[n]];
      AheadExact(t[..n], t[n], n);
    }
  }

  /** The entries of `s` whose key is `k`, in their order. */
  function WithKey(s: seq<Message>, k: Option<string>): seq<Message>
  {
    if s == [] then []
    else if s[0].createdAt == k then [s[0]] + WithKey(s[1..], k)
    else WithKey(s[1..], k)
  }

  lemma {:induction false} WithKeyAppend(a: seq<Message>, b: seq<Message>, k: Option<string>)
    ensures WithKey(a + b, k) == WithKey(a, k) + WithKey(b, k)
  {
    if a != [] {
      assert (a + b)[0] == a[0] && (a + b)[1..] == a[1..] + b;
      WithKeyAppend(a[1..], b, k);
    } else {
      assert a + b == b;
    }
  }

  /** The sort is stable: the entries that share any one key keep their
      relative order. */
  lemma {:induction false} SortIsStable(s: seq<Message>, k: Option<string>)
    ensures WithKey(SortByCreatedAt(s), k) == WithKey(s, k)
  {
    if s != [] {
      var n := |s| - 1;
      var m := s[n];
      assert s == s[..n] + [m];
      SortIsStable(s[..n], k);
      SortSnoc(s[..n], m);
      WithKeyAppend(s[..n], [m], k);
      SortByCreatedAtSpec(s[..n]);
      InsertIsStable(SortByCreatedAt(s[..n]), m, k);
    }
  }

  /** Inserting `m` appends it to the entries that share its key. */
  lemma InsertIsStable(t: seq<Message>, m: Message, k: Option<string>)
    requires Sorted(t)
    ensures WithKey(Insert(t, m), k) == WithKey(t, k) + WithKey([m], k)
  {
    var p := Ahead(t, m);
    WithKeySplice(t, m, p, k);
    if k == m.createdAt {
      NoEqualKeyAfter(t, m);
    }
  }

  /** No entry after the insertion point has `m`'s key. */
  lemma NoEqualKeyAfter(t: seq<Message>, m: Message)
    requires Sorted(t)
    ensures WithKey(t[Ahead(t, m)..], m.createdAt) == []
  {
    AheadRest(t, m);
    KeyLeReflexive(m.createdAt);
    WithKeyAbsent(t[Ahead(t, m)..], m.createdAt);
  }

  lemma WithKeySplice(t: seq<Message>, m: Message, p: nat, k: Option<string>)
    requires p <= |t|
    ensures WithKey(t[..p] + [m] + t[p..], k) == WithKey(t[..p], k) + WithKey([m], k) + WithKey(t[p..], k)
    ensures WithKey(t, k) == WithKey(t[..p], k) + WithKey(t[p..], k)
  {
    WithKeyAppend(t[..p] + [m], t[p..], k);
    WithKeyAppend(t[..p], [m], k);
    WithKeySplit(t, p, k);
  }

  lemma WithKeySplit(t: seq<Message>, p: nat, k: Option<string>)
    requires p <= |t|
    ensures WithKey(t, k) == WithKey(t[..p], k) + WithKey(t[p..], k)
  {
    WithKeyAppend(t[..p], t[p..], k);
    assert t == t[..p] + t[p..];
  }

  lemma WithKeyAbsent(b: seq<Message>, k: Option<string>)
    requires forall i :: 0 <= i < |b| ==> b[i].createdAt != k
    ensures WithKey(b, k) == []
  {
  }

  /** A larger key is placed no earlier than a smaller one. */
  lemma AheadMonotone(t: seq<Message>, a: Message, b: Message)
    requires KeyLe(a.createdAt, b.createdAt)
    ensures Ahead(t, a) <= Ahead(t, b)
  {
    var p, q := Ahead(t, a), Ahead(t, b);
    if q < p {
      KeyLeTransitive(t[q].createdAt, a.createdAt, b.createdAt);
    }
  }

  /** After `a` is inserted, an entry with a larger key goes one place
      further along. */
  lemma AheadAfterSmaller(t: seq<Message>, a: Message, b: Message)
    requires Sorted(t)
    requires KeyLe(a.createdAt, b.createdAt)
    ensures Ahead(Insert(t, a), b) == Ahead(t, b) + 1
  {
    var p, q := Ahead(t, a), Ahead(t, b);
    AheadMonotone(t, a, b);
    var u := Insert(t, a);
    forall i | 0 <= i < q + 1 ensures KeyLe(u[i].createdAt, b.createdAt) {
      if i < p {
        KeyLeTransitive(t[i].createdAt, a.createdAt, b.createdAt);
      } else if p < i {
        assert u[i] == t[i - 1];
      }
    }
    AheadExact(u, b, q + 1);
  }

  /** After `b` is inserted, an entry with a strictly smaller key goes where
      it went before. */
  lemma AheadAfterLarger(t: seq<Message>, a: Message, b: Message)
    requires Sorted(t)
    requires KeyLe(a.createdAt, b.createdAt) && a.createdAt != b.createdAt
    ensures Ahead(Insert(t, b), a) == Ahead(t, a)
  {
    var p, q := Ahead(t, a), Ahead(t, b);
    AheadMonotone(t, a, b);
    var v := Insert(t, b);
    if p == q && KeyLe(b.createdAt, a.createdAt) {
      KeyLeAntisymmetric(a.createdAt, b.createdAt);
    }
    AheadExact(v, a, p);
  }

  lemma SpliceTwice(t: seq<Message>, a: Message, b: Message, p: nat, q: nat)
    requires p <= q <= |t|
    ensures var u := t[..p] + [a] + t[p..];
      u[..q + 1] + [b] + u[q + 1..] == t[..p] + [a] + t[p..q] + [b] + t[q..]
    ensures var v := t[..q] + [b] + t[q..];
      v[..p] + [a] + v[p..] == t[..p] + [a] + t[p..q] + [b] + t[q..]
  {
    var u := t[..p] + [a] + t[p..];
    assert u[..q + 1] == t[..p] + [a] + t[p..q];
    assert u[q + 1..] == t[q..];
    var v := t[..q] + [b] + t[q..];
    assert v[..p] == t[..p];
    assert v[p..] == t[p..q] + [b] + t[q..];
  }

  /** Inserting two entries with different keys gives the same list in
      either order. */
  lemma InsertCommutesOrdered(t: seq<Message>, a: Message, b: Message)
    requires Sorted(t)
    requires KeyLe(a.createdAt, b.createdAt) && a.createdAt != b.createdAt
    ensures Insert(Insert(t, a), b) == Insert(Insert(t, b), a)
  {
    var p, q := Ahead(t, a), Ahead(t, b);
    AheadMonotone(t, a, b);
    AheadAfterSmaller(t, a, b);
    AheadAfterLarger(t, a, b);
    SpliceTwice(t, a, b, p, q);
  }

  /** Two entries with different keys that arrive one after the other sort
      the same whichever arrives first. */
  lemma SortSwapLast(s: seq<Message>, a: Message, b: Message)
    requires a.createdAt != b.createdAt
    ensures SortByCreatedAt(s + [a, b]) == SortByCreatedAt(s + [b, a])
  {
    assert s + [a, b] == (s + [a]) + [b];
    assert s + [b, a] == (s + [b]) + [a];
    SortSnoc(s, a);
    SortSnoc(s, b);
    SortSnoc(s + [a], b);
    SortSnoc(s + [b], a);
    var t := SortByCreatedAt(s);
    SortByCreatedAtSpec(s);
    KeyLeTotal(a.createdAt, b.createdAt);
    if KeyLe(a.createdAt, b.createdAt) {
      InsertCommutesOrdered(t, a, b);
    } else {
      InsertCommutesOrdered(t, b, a);
    }
  }
}
