/**
 * Concrete runs of the message state: a fetch followed by a pushed message,
 * two deliveries of one id, and two messages with equal keys arriving in
 * either order.
 */
module Scenarios {
  import opened Wrappers
  import opened KeyOrder
  import opened Messages
  import opened StableSort
  import opened UniqueById
  import opened Normalization

  function Msg(id: string, createdAt: string): Message
  {
    Message(id, "hello", "token", Some("1"), Some(createdAt), None)
  }

  /** The fetch returns messages at "1" and "3"; a message at "2" pushed
      afterwards goes between them. */
  lemma FetchThenPush()
    ensures Merged(Normalize([Msg("a", "1"), Msg("b", "3")]), Msg("c", "2"))
         == [Msg("a", "1"), Msg("c", "2"), Msg("b", "3")]
  {
    var a, b, c := Msg("a", "1"), Msg("b", "3"), Msg("c", "2");
    FetchIsNormal(a, b);
    PushBetween(a, b, c);
  }

  lemma FetchIsNormal(a: Message, b: Message)
    requires a == Msg("a", "1") && b == Msg("b", "3")
    ensures Normalize([a, b]) == [a, b]
  {
    assert StrLe("1", "3");
    assert IsNormal([a, b]);
    NormalFixpoint([a, b]);
  }

  lemma PushBetween(a: Message, b: Message, c: Message)
    requires a == Msg("a", "1") && b == Msg("b", "3") && c == Msg("c", "2")
    ensures Merged([a, b], c) == [a, c, b]
  {
    assert StrLe("1", "3") && StrLe("1", "2") && !StrLe("3", "2");
    assert IsNormal([a, b]);
    AheadExact([a, b], c, 1);
    MergeNewId([a, b], c);
    assert [a, b][..1] == [a] && [a, b][1..] == [b];
  }

  /** Two deliveries of id "1": the one with the earlier `createdAt` is kept,
      whichever arrives first. */
  lemma EarlierKeyWins()
    ensures Normalize([Msg("1", "t2"), Msg("1", "t1")]) == [Msg("1", "t1")]
    ensures Normalize([Msg("1", "t1"), Msg("1", "t2")]) == [Msg("1", "t1")]
  {
    var late, early := Msg("1", "t2"), Msg("1", "t1");
    assert StrLe("t1", "t2") && !StrLe("t2", "t1");
    assert IsNormal([late]) && IsNormal([early]);
    NormalFixpoint([late]);
    NormalFixpoint([early]);
    assert [late, early] == [late] + [early] && [early, late] == [early] + [late];
    MergeReplaces([late], early, late);
    AheadExact([late], early, 0);
    MergeKeepsExisting([early], late, early);
  }

  /** Two messages with different ids but the same `createdAt` end up in
      arrival order, so merging them in the two orders gives two different
      lists. */
  lemma EqualKeysKeepArrivalOrder(x: Message, y: Message)
    requires x.id != y.id && x.createdAt == y.createdAt
    ensures Merged(Merged([], x), y) != Merged(Merged([], y), x)
  {
    ArrivalOrder(x, y);
    ArrivalOrder(y, x);
    assert [x, y][0] != [y, x][0];
  }

  /** Into the empty list, two messages with distinct ids and equal keys
      are kept in the order they arrive. */
  lemma ArrivalOrder(x: Message, y: Message)
    requires x.id != y.id && x.createdAt == y.createdAt
    ensures Merged(Merged([], x), y) == [x, y]
  {
    MergeIntoEmpty(x);
    KeyLeReflexive(x.createdAt);
    MergeAppendsLatest([x], y);
  }

  lemma MergeIntoEmpty(x: Message)
    ensures Merged([], x) == [x]
  {
    NormalFixpoint([]);
    MergeNewId([], x);
  }
}
