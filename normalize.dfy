/**
 * The message-list normalisation `uniqBy(sortBy(xs, 'createdAt'), 'id')`
 * that the chat screen applies to a fetched snapshot and, after appending,
 * to every message delivered by the live subscription.
 */
module Normalization {
  import opened Wrappers
  import opened KeyOrder
  import opened Messages
  import opened StableSort
  import opened UniqueById

  /** `uniqBy(sortBy(s, 'createdAt'), 'id')`. */
  function Normalize(s: seq<Message>): seq<Message>
  {
    UniqById(SortByCreatedAt(s))
  }

  /** The result is sorted by `createdAt`, has one entry per id, takes every
      entry from `s` and keeps every id of `s`. */
  lemma NormalizeSpec(s: seq<Message>)
    ensures IsNormal(Normalize(s))
    ensures forall x :: x in Normalize(s) ==> x in s
    ensures Ids(Normalize(s)) == Ids(s)
    ensures |Normalize(s)| == |Ids(s)|
  {
    var t := SortByCreatedAt(s);
    SortByCreatedAtSpec(s);
    UniqKeepsSorted(t, {});
    UniqByIdSpec(t);
    SortKeepsEntries(s);
  }

  /** The sort neither adds nor loses entries. */
  lemma SortKeepsEntries(s: seq<Message>)
    ensures forall x :: x in SortByCreatedAt(s) <==> x in s
    ensures Ids(SortByCreatedAt(s)) == Ids(s)
  {
    var t := SortByCreatedAt(s);
    SortByCreatedAtSpec(s);
    assert forall x :: x in t <==> x in multiset(t);
    assert forall x :: x in s <==> x in multiset(s);
  }

  /** `uniqBy(sortBy([...msgs, msg], 'createdAt'), 'id')`: the list after an
      incoming message is merged into the current one. */
  function Merged(current: seq<Message>, incoming: Message): seq<Message>
  {
    Normalize(current + [incoming])
  }

  /** A merge leaves a normal list holding the ids it had plus the incoming
      message's id. */
  lemma MergedSpec(current: seq<Message>, incoming: Message)
    ensures IsNormal(Merged(current, incoming))
    ensures Ids(Merged(current, incoming)) == Ids(current) + {incoming.id}
  {
    NormalizeSpec(current + [incoming]);
    IdsAppend(current, [incoming]);
    assert Ids([incoming]) == {incoming.id};
  }

  /** The list after a sequence of incoming messages is merged, one at a time,
      into `current`. */
  function MergeAll(current: seq<Message>, events: seq<Message>): seq<Message>
    decreases |events|
  {
    if events == [] then current
    else MergeAll(Merged(current, events[0]), events[1..])
  }

  /** A list that is already normal is left as it is. */
  lemma NormalFixpoint(r: seq<Message>)
    requires IsNormal(r)
    ensures Normalize(r) == r
  {
    SortedFixpoint(r);
    assert Ids(r) !! {};
    UniqFixpoint(r, {});
  }

  /** Normalising twice is the same as normalising once. */
  lemma NormalizeIdempotent(s: seq<Message>)
    ensures Normalize(Normalize(s)) == Normalize(s)
  {
    NormalizeSpec(s);
    NormalFixpoint(Normalize(s));
  }

  /** Dedup of a list with one entry spliced in, against dedup without it. */
  lemma DedupSplice(a: seq<Message>, m: Message, b: seq<Message>)
    ensures UniqById(a + b) == UniqFrom(a, {}) + UniqFrom(b, Ids(a))
    ensures UniqById(a + [m] + b) == UniqFrom(a, {}) +
      if m.id in Ids(a) then UniqFrom(b, Ids(a))
      else [m] + RemoveId(UniqFrom(b, Ids(a)), m.id)
  {
    assert {} + Ids(a) == Ids(a);
    UniqAppend(a, b, {});
    assert a + [m] + b == a + ([m] + b);
    UniqAppend(a, [m] + b, {});
    assert ([m] + b)[0] == m && ([m] + b)[1..] == b;
    UniqSeenOneMore(b, Ids(a), m.id);
  }

  /** After dedup, the insertion point of `m` is still just after what is
      left of the entries ahead of it. */
  lemma AheadOfDedup(a: seq<Message>, b: seq<Message>, m: Message)
    requires forall i :: 0 <= i < |a| ==> KeyLe(a[i].createdAt, m.createdAt)
    requires forall i :: 0 <= i < |b| ==> !KeyLe(b[i].createdAt, m.createdAt)
    ensures Ahead(UniqFrom(a, {}) + UniqFrom(b, Ids(a)), m) == |UniqFrom(a, {})|
  {
    var ua, ub := UniqFrom(a, {}), UniqFrom(b, Ids(a));
    UniqFromSpec(a, {});
    UniqFromSpec(b, Ids(a));
    forall i | 0 <= i < |ua| ensures KeyLe(ua[i].createdAt, m.createdAt) {
      assert ua[i] in ua;
    }
    if |ub| > 0 {
      assert ub[0] in ub;
    }
    AheadExact(ua + ub, m, |ua|);
  }

  /**
   * How one more message `m` at the end of the input changes the result.
   * With `r` the normalised list without it and `p` the position where a
   * stable insertion of `m` into `r` goes: if an entry ahead of `p` already
   * has `m`'s id, nothing changes; otherwise `m` goes in at `p` and an entry
   * with its id further along, if any, is dropped.
   */
  lemma NormalizeSnoc(s: seq<Message>, m: Message)
    ensures var r := Normalize(s); var p := Ahead(r, m);
      Normalize(s + [m]) ==
        if m.id in Ids(r[..p]) then r else r[..p] + [m] + RemoveId(r[p..], m.id)
  {
    var ua, ub := NormalizeSnocParts(s, m);
    var r := ua + ub;
    assert r[..|ua|] == ua && r[|ua|..] == ub;
  }

  /** `NormalizeSnoc` with the normalised list cut at the insertion point. */
  lemma NormalizeSnocParts(s: seq<Message>, m: Message) returns (ua: seq<Message>, ub: seq<Message>)
    ensures Normalize(s) == ua + ub
    ensures Ahead(ua + ub, m) == |ua|
    ensures Normalize(s + [m]) ==
      ua + if m.id in Ids(ua) then ub else [m] + RemoveId(ub, m.id)
  {
    var a, b := SortSnocSplit(s, m);
    DedupSplice(a, m, b);
    AheadOfDedup(a, b, m);
    UniqFromSpec(a, {});
    ua, ub := UniqFrom(a, {}), UniqFrom(b, Ids(a));
  }

  /** Merging into a normalised list is the same as normalising the whole
      input with the message appended. */
  lemma NormalizeHistory(s: seq<Message>, m: Message)
    ensures Merged(Normalize(s), m) == Normalize(s + [m])
  {
    NormalizeSnoc(s, m);
    NormalizeSnoc(Normalize(s), m);
    NormalizeIdempotent(s);
  }

  /** Merging a run of messages one at a time into a normalised snapshot
      gives the normalisation of the snapshot's input followed by them. */
  lemma {:induction false} MergeAllIsNormalize(items: seq<Message>, events: seq<Message>)
    ensures MergeAll(Normalize(items), events) == Normalize(items + events)
    decreases |events|
  {
    if events == [] {
      assert items + events == items;
    } else {
      NormalizeHistory(items, events[0]);
      MergeAllIsNormalize(items + [events[0]], events[1..]);
      assert items + [events[0]] + events[1..] == items + events;
    }
  }

  /** `NormalizeSnoc` for a list that is already normal: how one merge
      changes the message state. */
  lemma MergeSplice(r: seq<Message>, m: Message)
    requires IsNormal(r)
    ensures var p := Ahead(r, m);
      Merged(r, m) ==
        if m.id in Ids(r[..p]) then r else r[..p] + [m] + RemoveId(r[p..], m.id)
  {
    NormalizeSnoc(r, m);
    NormalFixpoint(r);
  }

  /** A message whose id the list does not have yet is inserted at its
      sorted position, after every entry whose key is not greater. */
  lemma MergeNewId(r: seq<Message>, m: Message)
    requires IsNormal(r)
    requires m.id !in Ids(r)
    ensures Merged(r, m) == r[..Ahead(r, m)] + [m] + r[Ahead(r, m)..]
    ensures |Merged(r, m)| == |r| + 1
    ensures multiset(Merged(r, m)) == multiset(r) + multiset{m}
  {
    MergeNewIdShape(r, m);
    SpliceCounts(r, m, Ahead(r, m));
  }

  lemma MergeNewIdShape(r: seq<Message>, m: Message)
    requires IsNormal(r)
    requires m.id !in Ids(r)
    ensures Merged(r, m) == r[..Ahead(r, m)] + [m] + r[Ahead(r, m)..]
  {
    var p := Ahead(r, m);
    AbsentFromSlices(r, p, m.id);
    RemoveAbsentId(r[p..], m.id);
    MergeSplice(r, m);
  }

  lemma AbsentFromSlices(r: seq<Message>, p: nat, k: string)
    requires p <= |r| && k !in Ids(r)
    ensures k !in Ids(r[..p]) && k !in Ids(r[p..])
  {
    assert r == r[..p] + r[p..];
    IdsAppend(r[..p], r[p..]);
  }

  /** Putting one entry into a list adds exactly that entry. */
  lemma SpliceCounts(r: seq<Message>, m: Message, p: nat)
    requires p <= |r|
    ensures |r[..p] + [m] + r[p..]| == |r| + 1
    ensures multiset(r[..p] + [m] + r[p..]) == multiset(r) + multiset{m}
  {
    assert r == r[..p] + r[p..];
  }

  /** A new message whose key is not less than any key in the list (the
      usual case for a freshly sent message) is appended at the end. */
  lemma MergeAppendsLatest(r: seq<Message>, m: Message)
    requires IsNormal(r)
    requires m.id !in Ids(r)
    requires forall i :: 0 <= i < |r| ==> KeyLe(r[i].createdAt, m.createdAt)
    ensures Merged(r, m) == r + [m]
  {
    AheadExact(r, m, |r|);
    MergeNewId(r, m);
    assert r[..|r|] == r && r[|r|..] == [];
  }

  /** An entry already in the list with the incoming message's id and a key
      not greater than the incoming one wins: the list is unchanged. */
  lemma MergeKeepsExisting(r: seq<Message>, m: Message, e: Message)
    requires IsNormal(r)
    requires e in r && e.id == m.id
    requires KeyLe(e.createdAt, m.createdAt)
    ensures Merged(r, m) == r
  {
    var p := Ahead(r, m);
    MergeSplice(r, m);
    AheadRest(r, m);
    var i :| 0 <= i < |r| && r[i] == e;
    assert r[..p][i] == e;
    assert e in r[..p];
  }

  /** No entry ahead of the insertion point has the id of an entry whose key
      is greater than the incoming one's. */
  lemma NotAhead(r: seq<Message>, m: Message, e: Message)
    requires NoDupIds(r)
    requires e in r && e.id == m.id
    requires !KeyLe(e.createdAt, m.createdAt)
    ensures m.id !in Ids(r[..Ahead(r, m)])
  {
    var p := Ahead(r, m);
    var j :| 0 <= j < |r| && r[j] == e;
    assert j >= p;
  }

  /** An incoming message with a strictly smaller key than the entry that
      has its id takes that entry's place: the entry is dropped, the message
      goes in at its sorted position and the length is unchanged. */
  lemma MergeReplaces(r: seq<Message>, m: Message, e: Message)
    requires IsNormal(r)
    requires e in r && e.id == m.id
    requires !KeyLe(e.createdAt, m.createdAt)
    ensures Merged(r, m) == r[..Ahead(r, m)] + [m] + RemoveId(r[Ahead(r, m)..], m.id)
    ensures m in Merged(r, m) && e !in Merged(r, m)
    ensures |Merged(r, m)| == |r|
  {
    MergeSplice(r, m);
    NotAhead(r, m, e);
    MergeReplacesCount(r, m, e);
  }

  lemma MergeReplacesCount(r: seq<Message>, m: Message, e: Message)
    requires IsNormal(r)
    requires e in r && e.id == m.id
    requires !KeyLe(e.createdAt, m.createdAt)
    requires m in Merged(r, m)
    ensures e !in Merged(r, m)
    ensures |Merged(r, m)| == |r|
  {
    var u := Merged(r, m);
    KeyLeReflexive(m.createdAt);
    MergedSpec(r, m);
    assert m.id in Ids(r);
    assert Ids(r) + {m.id} == Ids(r);
    NoDupIdsCount(r);
    NoDupIdsCount(u);
  }

  /** The message delivered twice in a row is merged only once. */
  lemma MergeTwice(current: seq<Message>, m: Message)
    ensures Merged(Merged(current, m), m) == Merged(current, m)
  {
    var r := Merged(current, m);
    MergedSpec(current, m);
    var e :| e in r && e.id == m.id;
    NormalizeKeepsWinner(current + [m]);
    var n := |current|;
    assert (current + [m])[n] == m;
    MergeKeepsExisting(r, m, e);
  }

  /** Two messages with different `createdAt` keys give the same list
      whichever of them is merged first. */
  lemma MergeCommutes(r: seq<Message>, a: Message, b: Message)
    requires a.createdAt != b.createdAt
    ensures Merged(Merged(r, a), b) == Merged(Merged(r, b), a)
  {
    assert Merged(r, a) == Normalize(r + [a]);
    NormalizeHistory(r + [a], b);
    NormalizeHistory(r + [b], a);
    assert r + [a] + [b] == r + [a, b];
    assert r + [b] + [a] == r + [b, a];
    SortSwapLast(r, a, b);
  }

  /**
   * The entry that the normalisation keeps for id `k`: among the entries of
   * `s` with that id, the first one with the least `createdAt`.
   */
  function WinnerIndex(s: seq<Message>, k: string): (w: Option<nat>)
    ensures w.None? <==> forall j :: 0 <= j < |s| ==> s[j].id != k
    ensures w.Some? ==> w.value < |s| && s[w.value].id == k
    ensures w.Some? ==> forall j :: 0 <= j < |s| && s[j].id == k ==>
      KeyLe(s[w.value].createdAt, s[j].createdAt)
    ensures w.Some? ==> forall j :: 0 <= j < w.value && s[j].id == k ==>
      !KeyLe(s[j].createdAt, s[w.value].createdAt)
  {
    if s == [] then None
    else
      var n := |s| - 1;
      var w := WinnerIndex(s[..n], k);
      if s[n].id != k then w
      else if w.Some? && KeyLe(s[w.value].createdAt, s[n].createdAt) then w
      else
        WinnerIndexStep(s, k, w);
        Some(n)
  }

  /** The last entry becomes the winner when it beats the earlier one. */
  lemma WinnerIndexStep(s: seq<Message>, k: string, w: Option<nat>)
    requires s != [] && s[|s| - 1].id == k
    requires w.None? <==> forall j :: 0 <= j < |s| - 1 ==> s[j].id != k
    requires w.Some? ==> w.value < |s| - 1 && s[w.value].id == k
    requires w.Some? ==> forall j :: 0 <= j < |s| - 1 && s[j].id == k ==>
      KeyLe(s[w.value].createdAt, s[j].createdAt)
    requires w.Some? ==> !KeyLe(s[w.value].createdAt, s[|s| - 1].createdAt)
    ensures forall j :: 0 <= j < |s| && s[j].id == k ==>
      KeyLe(s[|s| - 1].createdAt, s[j].createdAt)
    ensures forall j :: 0 <= j < |s| - 1 && s[j].id == k ==>
      !KeyLe(s[j].createdAt, s[|s| - 1].createdAt)
  {
    var n := |s| - 1;
    KeyLeReflexive(s[n].createdAt);
    forall j | 0 <= j < n && s[j].id == k
      ensures KeyLe(s[n].createdAt, s[j].createdAt)
      ensures !KeyLe(s[j].createdAt, s[n].createdAt)
    {
      var i := w.value;
      KeyLeTotal(s[i].createdAt, s[n].createdAt);
      KeyLeTransitive(s[n].createdAt, s[i].createdAt, s[j].createdAt);
      if KeyLe(s[j].createdAt, s[n].createdAt) {
        KeyLeTransitive(s[i].createdAt, s[j].createdAt, s[n].createdAt);
      }
    }
  }

  /**
   * Tie-break: every entry the normalisation keeps is the winner for its
   * id: its `createdAt` is not greater than that of any input entry with
   * the same id, and every earlier input entry with the same id has a
   * strictly greater `createdAt`.
   */
  lemma {:induction false} NormalizeKeepsWinner(s: seq<Message>)
    ensures forall x :: x in Normalize(s) ==>
      WinnerIndex(s, x.id).Some? && s[WinnerIndex(s, x.id).value] == x
  {
    if s != [] {
      var n := |s| - 1;
      var s', m := s[..n], s[n];
      assert s == s' + [m];
      NormalizeKeepsWinner(s');
      forall x | x in Normalize(s)
        ensures WinnerIndex(s, x.id).Some? && s[WinnerIndex(s, x.id).value] == x
      {
        WinnerAfterSnoc(s', m, x);
      }
    }
  }

  /** One step of `NormalizeKeepsWinner`: the winner property carries over
      to one more message at the end of the input. */
  lemma WinnerAfterSnoc(s': seq<Message>, m: Message, x: Message)
    requires forall y :: y in Normalize(s') ==>
      WinnerIndex(s', y.id).Some? && s'[WinnerIndex(s', y.id).value] == y
    requires x in Normalize(s' + [m])
    ensures WinnerIndex(s' + [m], x.id).Some?
    ensures (s' + [m])[WinnerIndex(s' + [m], x.id).value] == x
  {
    var r := Normalize(s');
    if x.id != m.id {
      WinnerCaseOther(s', m, x);
    } else if m.id in Ids(r[..Ahead(r, m)]) {
      WinnerCaseAhead(s', m, x);
    } else {
      WinnerCaseNew(s', m, x);
    }
  }

  lemma WinnerCaseOther(s': seq<Message>, m: Message, x: Message)
    requires forall y :: y in Normalize(s') ==>
      WinnerIndex(s', y.id).Some? && s'[WinnerIndex(s', y.id).value] == y
    requires x in Normalize(s' + [m])
    requires x.id != m.id
    ensures WinnerIndex(s' + [m], x.id).Some?
    ensures (s' + [m])[WinnerIndex(s' + [m], x.id).value] == x
  {
    var r := Normalize(s');
    var p := Ahead(r, m);
    NormalizeSnoc(s', m);
    assert r == r[..p] + r[p..];
    assert x in r;
    WinnerSnocOther(s', m, x.id);
    assert (s' + [m])[..|s'|] == s';
  }

  lemma WinnerCaseAhead(s': seq<Message>, m: Message, x: Message)
    requires forall y :: y in Normalize(s') ==>
      WinnerIndex(s', y.id).Some? && s'[WinnerIndex(s', y.id).value] == y
    requires x in Normalize(s' + [m])
    requires x.id == m.id
    requires m.id in Ids(Normalize(s')[..Ahead(Normalize(s'), m)])
    ensures WinnerIndex(s' + [m], x.id).Some?
    ensures (s' + [m])[WinnerIndex(s' + [m], x.id).value] == x
  {
    var r := Normalize(s');
    var p := Ahead(r, m);
    NormalizeSnoc(s', m);
    NormalizeSpec(s');
    WinnerKeptAhead(r, p, m, x);
    WinnerSnocKeep(s', m, WinnerIndex(s', x.id).value);
  }

  lemma WinnerCaseNew(s': seq<Message>, m: Message, x: Message)
    requires forall y :: y in Normalize(s') ==>
      WinnerIndex(s', y.id).Some? && s'[WinnerIndex(s', y.id).value] == y
    requires x in Normalize(s' + [m])
    requires x.id == m.id
    requires m.id !in Ids(Normalize(s')[..Ahead(Normalize(s'), m)])
    ensures WinnerIndex(s' + [m], x.id).Some?
    ensures (s' + [m])[WinnerIndex(s' + [m], x.id).value] == x
  {
    var r := Normalize(s');
    var p := Ahead(r, m);
    NormalizeSnoc(s', m);
    WinnerNotAhead(s', m);
    WinnerSnocNew(s', m);
    assert (s' + [m])[|s'|] == m;
  }

  /** If no entry ahead of `m`'s insertion point has its id, the earlier
      winner for that id, if any, has a key greater than `m`'s. */
  lemma WinnerNotAhead(s': seq<Message>, m: Message)
    requires forall y :: y in Normalize(s') ==>
      WinnerIndex(s', y.id).Some? && s'[WinnerIndex(s', y.id).value] == y
    requires m.id !in Ids(Normalize(s')[..Ahead(Normalize(s'), m)])
    ensures WinnerIndex(s', m.id).Some? ==>
      !KeyLe(s'[WinnerIndex(s', m.id).value].createdAt, m.createdAt)
  {
    var r := Normalize(s');
    var p := Ahead(r, m);
    if WinnerIndex(s', m.id).Some? {
      NormalizeSpec(s');
      AheadRest(r, m);
      var i := WinnerIndex(s', m.id).value;
      assert m.id in Ids(s');
      var y :| y in r && y.id == m.id;
      assert s'[i] == y;
      var j :| 0 <= j < |r| && r[j] == y;
    }
  }

  /** The winner for another id is not affected by `m`. */
  lemma WinnerSnocOther(s': seq<Message>, m: Message, k: string)
    requires k != m.id
    ensures WinnerIndex(s' + [m], k) == WinnerIndex(s', k)
  {
    assert (s' + [m])[..|s'|] == s';
  }

  /** An earlier winner whose key is not greater than `m`'s stays. */
  lemma WinnerSnocKeep(s': seq<Message>, m: Message, i: nat)
    requires WinnerIndex(s', m.id) == Some(i)
    requires KeyLe(s'[i].createdAt, m.createdAt)
    ensures WinnerIndex(s' + [m], m.id) == Some(i)
  {
    assert (s' + [m])[..|s'|] == s';
  }

  /** `m` becomes the winner when there is no earlier one or that one has a
      greater key. */
  lemma WinnerSnocNew(s': seq<Message>, m: Message)
    requires WinnerIndex(s', m.id).Some? ==>
      !KeyLe(s'[WinnerIndex(s', m.id).value].createdAt, m.createdAt)
    ensures WinnerIndex(s' + [m], m.id) == Some(|s'|)
  {
    assert (s' + [m])[..|s'|] == s';
  }

  /** When an entry ahead of the insertion point has `m`'s id, it is the
      entry of `r` with that id and its key is not greater than `m`'s. */
  lemma WinnerKeptAhead(r: seq<Message>, p: nat, m: Message, x: Message)
    requires NoDupIds(r) && p <= |r|
    requires forall i :: 0 <= i < p ==> KeyLe(r[i].createdAt, m.createdAt)
    requires m.id in Ids(r[..p])
    requires x in r && x.id == m.id
    ensures KeyLe(x.createdAt, m.createdAt)
  {
    var y :| y in r[..p] && y.id == m.id;
    var i :| 0 <= i < p && r[..p][i] == y;
    var j :| 0 <= j < |r| && r[j] == x;
    assert r[i] == y;
    assert i == j;
  }

  /** The tie-break stated on the input alone. */
  lemma NormalizeTieBreak(s: seq<Message>, x: Message)
    requires x in Normalize(s)
    ensures exists i ::
      (&& 0 <= i < |s| && s[i] == x
       && (forall j :: 0 <= j < |s| && s[j].id == x.id ==> KeyLe(x.createdAt, s[j].createdAt))
       && (forall j :: 0 <= j < i && s[j].id == x.id ==> !KeyLe(s[j].createdAt, x.createdAt)))
  {
    NormalizeKeepsWinner(s);
    var i := WinnerIndex(s, x.id).value;
    assert s[i] == x;
  }

  /** The record kept for `x`'s id arrived before the one kept for `y`'s id:
      both ids occur in `s` and the winner for `x.id` sits earlier. */
  predicate ArrivesBefore(s: seq<Message>, x: Message, y: Message)
  {
    var wx, wy := WinnerIndex(s, x.id), WinnerIndex(s, y.id);
    wx.Some? && wy.Some? && wx.value < wy.value
  }

  /** Entries of `u` that share a `createdAt` appear in the order in which
      their winning records occur in the input `s`. */
  predicate ArrivalOrdered(u: seq<Message>, s: seq<Message>)
  {
    forall i, j :: 0 <= i < j < |u| && u[i].createdAt == u[j].createdAt ==>
      ArrivesBefore(s, u[i], u[j])
  }

  /**
   * Ties are broken by arrival: two kept entries with equal `createdAt` are
   * in the order in which their winning records occur in the input.  With
   * `NormalizeSpec` and `NormalizeKeepsWinner` this fixes the normalised
   * list completely.
   */
  lemma {:induction false} NormalizeArrivalOrder(s: seq<Message>)
    ensures ArrivalOrdered(Normalize(s), s)
  {
    if s != [] {
      var n := |s| - 1;
      var s', m := s[..n], s[n];
      assert s == s' + [m];
      NormalizeArrivalOrder(s');
      ArrivalSnoc(s', m);
    }
  }

  /** One step of `NormalizeArrivalOrder`. */
  lemma ArrivalSnoc(s': seq<Message>, m: Message)
    requires ArrivalOrdered(Normalize(s'), s')
    ensures ArrivalOrdered(Normalize(s' + [m]), s' + [m])
  {
    var r := Normalize(s');
    if m.id in Ids(r[..Ahead(r, m)]) {
      ArrivalCaseKeep(s', m);
    } else {
      ArrivalCaseInsert(s', m);
    }
  }

  /** The list does not change and neither does any winner. */
  lemma ArrivalCaseKeep(s': seq<Message>, m: Message)
    requires ArrivalOrdered(Normalize(s'), s')
    requires m.id in Ids(Normalize(s')[..Ahead(Normalize(s'), m)])
    ensures ArrivalOrdered(Normalize(s' + [m]), s' + [m])
  {
    var r := Normalize(s');
    NormalizeSnoc(s', m);
    forall i | 0 <= i < |r|
      ensures WinnerIndex(s' + [m], r[i].id) == WinnerIndex(s', r[i].id)
    {
      WinnerUnchangedAhead(s', m, r[i]);
    }
    ArrivalSwitch(r, s', s' + [m]);
  }

  lemma WinnerUnchangedAhead(s': seq<Message>, m: Message, x: Message)
    requires x in Normalize(s')
    requires m.id in Ids(Normalize(s')[..Ahead(Normalize(s'), m)])
    ensures WinnerIndex(s' + [m], x.id) == WinnerIndex(s', x.id)
  {
    var r := Normalize(s');
    if x.id != m.id {
      WinnerSnocOther(s', m, x.id);
    } else {
      NormalizeKeepsWinner(s');
      NormalizeSpec(s');
      WinnerKeptAhead(r, Ahead(r, m), m, x);
      WinnerSnocKeep(s', m, WinnerIndex(s', x.id).value);
    }
  }

  /** `m` goes in at its position, after entries with keys not greater than
      its own and before entries with greater keys; as the newest winner it
      arrives after every other kept entry. */
  lemma ArrivalCaseInsert(s': seq<Message>, m: Message)
    requires ArrivalOrdered(Normalize(s'), s')
    requires m.id !in Ids(Normalize(s')[..Ahead(Normalize(s'), m)])
    ensures ArrivalOrdered(Normalize(s' + [m]), s' + [m])
  {
    var r := Normalize(s');
    var p := Ahead(r, m);
    var a, b := r[..p], RemoveId(r[p..], m.id);
    ArrivalParts(s', m);
    ArrivalNewest(s', m);
    NormalizeSpec(s');
    ArrivalKeysApart(r, m);
    ArrivalInsert(a, b, m, s' + [m]);
    NormalizeSnoc(s', m);
  }

  /** The kept entries on either side of `m`'s position stay arrival
      ordered in the extended input. */
  lemma ArrivalParts(s': seq<Message>, m: Message)
    requires ArrivalOrdered(Normalize(s'), s')
    requires m.id !in Ids(Normalize(s')[..Ahead(Normalize(s'), m)])
    ensures ArrivalOrdered(Normalize(s')[..Ahead(Normalize(s'), m)], s' + [m])
    ensures ArrivalOrdered(RemoveId(Normalize(s')[Ahead(Normalize(s'), m)..], m.id), s' + [m])
  {
    var r := Normalize(s');
    var p := Ahead(r, m);
    ArrivalSlice(r, s', p);
    ArrivalRemoveId(r[p..], s', m.id);
    ArrivalSwitchOther(r[..p], s', m);
    ArrivalSwitchOther(RemoveId(r[p..], m.id), s', m);
  }

  /** Putting `m` between two arrival-ordered lists keeps arrival order when
      it arrived after the entries before it and shares no key with the
      entries after it. */
  lemma ArrivalInsert(a: seq<Message>, b: seq<Message>, m: Message, s: seq<Message>)
    requires ArrivalOrdered(a, s) && ArrivalOrdered(b, s)
    requires forall x :: x in a ==> ArrivesBefore(s, x, m)
    requires forall x, y :: (x in a + [m] && y in b) ==> x.createdAt != y.createdAt
    ensures ArrivalOrdered(a + [m] + b, s)
  {
    ArrivalConcat(a, [m], s);
    ArrivalConcat(a + [m], b, s);
  }

  /** Every kept entry ahead of `m`'s position arrived before `m`, which
      wins its id in the extended input. */
  lemma ArrivalNewest(s': seq<Message>, m: Message)
    requires m.id !in Ids(Normalize(s')[..Ahead(Normalize(s'), m)])
    ensures forall x :: x in Normalize(s')[..Ahead(Normalize(s'), m)] ==>
      ArrivesBefore(s' + [m], x, m)
  {
    var r := Normalize(s');
    var a := r[..Ahead(r, m)];
    NormalizeKeepsWinner(s');
    WinnerNotAhead(s', m);
    WinnerSnocNew(s', m);
    forall x | x in a ensures ArrivesBefore(s' + [m], x, m) {
      assert x in r;
      WinnerSnocOther(s', m, x.id);
    }
  }

  /** The entries ahead of `m`'s position, and `m`, have keys not greater
      than `m`'s; the entries after it have greater keys. */
  lemma ArrivalKeysApart(r: seq<Message>, m: Message)
    requires Sorted(r)
    ensures forall x, y ::
      (x in r[..Ahead(r, m)] + [m] && y in RemoveId(r[Ahead(r, m)..], m.id))
      ==> x.createdAt != y.createdAt
  {
    var p := Ahead(r, m);
    AheadRest(r, m);
    KeyLeReflexive(m.createdAt);
    forall x, y | x in r[..p] + [m] && y in RemoveId(r[p..], m.id)
      ensures x.createdAt != y.createdAt
    {
      assert y in r[p..];
      if x != m {
        assert x in r[..p];
      }
    }
  }

  /** Arrival order carries over to another input in which every entry of
      `u` has the same winner. */
  lemma ArrivalSwitch(u: seq<Message>, s1: seq<Message>, s2: seq<Message>)
    requires ArrivalOrdered(u, s1)
    requires forall i :: 0 <= i < |u| ==> WinnerIndex(s2, u[i].id) == WinnerIndex(s1, u[i].id)
    ensures ArrivalOrdered(u, s2)
  {
  }

  /** Entries without `m`'s id keep their winners when `m` arrives. */
  lemma ArrivalSwitchOther(u: seq<Message>, s': seq<Message>, m: Message)
    requires ArrivalOrdered(u, s')
    requires forall x :: x in u ==> x.id != m.id
    ensures ArrivalOrdered(u, s' + [m])
  {
    forall i | 0 <= i < |u|
      ensures WinnerIndex(s' + [m], u[i].id) == WinnerIndex(s', u[i].id)
    {
      assert u[i] in u;
      WinnerSnocOther(s', m, u[i].id);
    }
    ArrivalSwitch(u, s', s' + [m]);
  }

  lemma ArrivalSlice(r: seq<Message>, s: seq<Message>, p: nat)
    requires p <= |r|
    requires ArrivalOrdered(r, s)
    ensures ArrivalOrdered(r[..p], s) && ArrivalOrdered(r[p..], s)
  {
    var b := r[p..];
    forall i, j | 0 <= i < j < |b| && b[i].createdAt == b[j].createdAt
      ensures ArrivesBefore(s, b[i], b[j])
    {
      assert b[i] == r[p + i] && b[j] == r[p + j];
    }
  }

  /** Two arrival-ordered lists stay so when joined, provided every entry
      of the first arrived before every entry of the second with its key. */
  lemma ArrivalConcat(u: seq<Message>, v: seq<Message>, s: seq<Message>)
    requires ArrivalOrdered(u, s) && ArrivalOrdered(v, s)
    requires forall x, y :: x in u && y in v && x.createdAt == y.createdAt ==>
      ArrivesBefore(s, x, y)
    ensures ArrivalOrdered(u + v, s)
  {
    var w := u + v;
    forall i, j | 0 <= i < j < |w| && w[i].createdAt == w[j].createdAt
      ensures ArrivesBefore(s, w[i], w[j])
    {
      if j < |u| {
        assert w[i] == u[i] && w[j] == u[j];
      } else if i >= |u| {
        assert w[i] == v[i - |u|] && w[j] == v[j - |u|];
      } else {
        assert w[i] in u && w[j] in v;
      }
    }
  }

  /** Dropping the entries with one id keeps the arrival order of the rest. */
  lemma {:induction false} ArrivalRemoveId(u: seq<Message>, s: seq<Message>, k: string)
    requires ArrivalOrdered(u, s)
    ensures ArrivalOrdered(RemoveId(u, k), s)
  {
    if u != [] {
      ArrivalSlice(u, s, 1);
      var rest := RemoveId(u[1..], k);
      ArrivalRemoveId(u[1..], s, k);
      if u[0].id != k {
        forall x, y | x in [u[0]] && y in rest && x.createdAt == y.createdAt
          ensures ArrivesBefore(s, x, y)
        {
          var j :| 0 <= j < |u[1..]| && u[1..][j] == y;
          assert u[j + 1] == y;
        }
        ArrivalConcat([u[0]], rest, s);
      }
    }
  }
}
