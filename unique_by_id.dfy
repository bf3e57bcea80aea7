/**
 * `uniqBy(xs, 'id')`: the entries of a message list with every entry whose
 * id already occurred earlier dropped, so the first occurrence of each id is
 * kept, in the list's order.
 */
module UniqueById {
  import opened KeyOrder
  import opened Messages

  /** The dedup continued after the ids in `seen` have been met: an entry is
      kept when its id is neither in `seen` nor on an earlier entry of `s`. */
  function UniqFrom(s: seq<Message>, seen: set<string>): seq<Message>
  {
    if s == [] then []
    else if s[0].id in seen then UniqFrom(s[1..], seen)
    else [s[0]] + UniqFrom(s[1..], seen + {s[0].id})
  }

  /** The result has no duplicate id and no id from `seen`, takes every entry
      from `s`, and has every id of `s` that is not in `seen`. */
  lemma {:induction false} UniqFromSpec(s: seq<Message>, seen: set<string>)
    ensures NoDupIds(UniqFrom(s, seen))
    ensures forall x :: x in UniqFrom(s, seen) ==> x in s && x.id !in seen
    ensures Ids(UniqFrom(s, seen)) == Ids(s) - seen
  {
    if s != [] {
      var seen' := if s[0].id in seen then seen else seen + {s[0].id};
      UniqFromSpec(s[1..], seen');
      assert s == [s[0]] + s[1..];
      IdsAppend([s[0]], s[1..]);
      if s[0].id !in seen {
        IdsAppend([s[0]], UniqFrom(s[1..], seen'));
      }
    }
  }

  /** `uniqBy(s, 'id')`. */
  function UniqById(s: seq<Message>): seq<Message>
  {
    UniqFrom(s, {})
  }

  /** No duplicate id, every entry from `s`, every id of `s` kept: one entry
      per id of `s`. */
  lemma UniqByIdSpec(s: seq<Message>)
    ensures NoDupIds(UniqById(s))
    ensures forall x :: x in UniqById(s) ==> x in s
    ensures Ids(UniqById(s)) == Ids(s)
    ensures |UniqById(s)| == |Ids(s)|
  {
    UniqFromSpec(s, {});
    NoDupIdsCount(UniqById(s));
  }

  /** Every kept entry is the first entry of `s` with its id. */
  lemma {:induction false} UniqKeepsFirst(s: seq<Message>, seen: set<string>)
    ensures forall x :: x in UniqFrom(s, seen) ==>
      exists i :: 0 <= i < |s| && s[i] == x && (forall j :: 0 <= j < i ==> s[j].id != x.id)
  {
    if s != [] {
      var t := s[1..];
      var seen' := if s[0].id in seen then seen else seen + {s[0].id};
      UniqKeepsFirst(t, seen');
      UniqFromSpec(t, seen');
      forall x | x in UniqFrom(s, seen)
        ensures exists i :: 0 <= i < |s| && s[i] == x && (forall j :: 0 <= j < i ==> s[j].id != x.id)
      {
        if x == s[0] && s[0].id !in seen {
          assert s[0] == x;
        } else {
          assert x in UniqFrom(t, seen');
          var i :| 0 <= i < |t| && t[i] == x && forall j :: 0 <= j < i ==> t[j].id != x.id;
          assert s[i + 1] == x;
        }
      }
    }
  }

  /** Dedup of a concatenation: the second part is deduped after the ids of
      the first. */
  lemma {:induction false} UniqAppend(a: seq<Message>, b: seq<Message>, seen: set<string>)
    ensures UniqFrom(a + b, seen) == UniqFrom(a, seen) + UniqFrom(b, seen + Ids(a))
  {
    if a == [] {
      assert a + b == b;
      assert seen + Ids(a) == seen;
    } else {
      var a' := a[1..];
      var seen' := if a[0].id in seen then seen else seen + {a[0].id};
      assert (a + b)[0] == a[0] && (a + b)[1..] == a' + b;
      UniqAppend(a', b, seen');
      SeenAfterHead(a, seen);
    }
  }

  lemma SeenAfterHead(a: seq<Message>, seen: set<string>)
    requires a != []
    ensures (if a[0].id in seen then seen else seen + {a[0].id}) + Ids(a[1..]) == seen + Ids(a)
  {
    assert a == [a[0]] + a[1..];
    IdsAppend([a[0]], a[1..]);
    assert Ids([a[0]]) == {a[0].id};
  }

  /** Having met one more id drops the entries with that id. */
  lemma {:induction false} UniqSeenOneMore(s: seq<Message>, seen: set<string>, k: string)
    ensures UniqFrom(s, seen + {k}) == RemoveId(UniqFrom(s, seen), k)
  {
    if s != [] {
      var t := s[1..];
      if s[0].id in seen {
        UniqSeenOneMore(t, seen, k);
      } else if s[0].id == k {
        UniqSeenOneMore(t, seen, k);
        assert seen + {k} == seen + {s[0].id};
        UniqSeenTwice(t, seen, k);
      } else {
        UniqSeenOneMore(t, seen + {s[0].id}, k);
        assert seen + {k} + {s[0].id} == seen + {s[0].id} + {k};
      }
    }
  }

  /** Dropping the entries with id `k` once more changes nothing. */
  lemma UniqSeenTwice(s: seq<Message>, seen: set<string>, k: string)
    ensures RemoveId(UniqFrom(s, seen + {k}), k) == UniqFrom(s, seen + {k})
  {
    var r := UniqFrom(s, seen + {k});
    UniqFromSpec(s, seen + {k});
    RemoveAbsentId(r, k);
  }

  /** Dedup keeps a sorted list sorted. */
  lemma {:induction false} UniqKeepsSorted(s: seq<Message>, seen: set<string>)
    requires Sorted(s)
    ensures Sorted(UniqFrom(s, seen))
  {
    if s != [] {
      var t := s[1..];
      var seen' := if s[0].id in seen then seen else seen + {s[0].id};
      assert Sorted(t);
      UniqKeepsSorted(t, seen');
      UniqFromSpec(t, seen');
      var rest := UniqFrom(t, seen');
      if s[0].id !in seen {
        forall j | 0 <= j < |rest|
          ensures KeyLe(s[0].createdAt, rest[j].createdAt)
        {
          assert rest[j] in rest;
          var i :| 0 <= i < |t| && t[i] == rest[j];
          assert s[i + 1] == t[i];
        }
        assert UniqFrom(s, seen) == [s[0]] + rest;
      }
    }
  }

  /** A list without duplicate ids, none of them already seen, is left as it
      is. */
  lemma {:induction false} UniqFixpoint(s: seq<Message>, seen: set<string>)
    requires NoDupIds(s)
    requires Ids(s) !! seen
    ensures UniqFrom(s, seen) == s
  {
    if s != [] {
      var t := s[1..];
      assert s == [s[0]] + t;
      IdsAppend([s[0]], t);
      assert s[0].id !in Ids(t);
      assert Ids(t) !! seen + {s[0].id};
      UniqFixpoint(t, seen + {s[0].id});
    }
  }
}
