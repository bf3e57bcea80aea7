/**
 * The chat message record and the properties of a message list that the
 * application's message state is meant to have.
 */
module Messages {
  import opened Wrappers
  import opened KeyOrder

  /** A chat message: the model fields of the backend's `Message` type. */
  datatype Message = Message(
    id: string,
    body: string,
    from: string,
    roomId: Option<string>,
    createdAt: Option<string>,
    updatedAt: Option<string>)

  /** The single record the message state starts with, before any fetch. */
  const Placeholder: Message :=
    Message("id", "test body", "someone", None, None, Some("idk"))

  /** The set of ids occurring in a list. */
  function Ids(s: seq<Message>): set<string>
  {
    set x | x in s :: x.id
  }

  lemma IdsAppend(a: seq<Message>, b: seq<Message>)
    ensures Ids(a + b) == Ids(a) + Ids(b)
  {
    assert forall x :: x in a + b <==> x in a || x in b;
  }

  /** Non-decreasing in `createdAt`. */
  predicate Sorted(s: seq<Message>)
  {
    forall i, j :: 0 <= i < j < |s| ==> KeyLe(s[i].createdAt, s[j].createdAt)
  }

  /** No two entries share an id. */
  predicate NoDupIds(s: seq<Message>)
  {
    forall i, j :: 0 <= i < j < |s| ==> s[i].id != s[j].id
  }

  /** The shape a normalised message list has. */
  predicate IsNormal(s: seq<Message>)
  {
    Sorted(s) && NoDupIds(s)
  }

  /** The entries of `s` whose id is not `k`, in their order. */
  function RemoveId(s: seq<Message>, k: string): (r: seq<Message>)
    ensures forall x :: x in r <==> x in s && x.id != k
  {
    if s == [] then []
    else if s[0].id == k then RemoveId(s[1..], k)
    else [s[0]] + RemoveId(s[1..], k)
  }

  lemma {:induction false} RemoveAbsentId(s: seq<Message>, k: string)
    requires k !in Ids(s)
    ensures RemoveId(s, k) == s
  {
    if s != [] {
      assert s[0] in s;
      assert Ids(s[1..]) <= Ids(s);
      RemoveAbsentId(s[1..], k);
    }
  }

  /** A list without duplicate ids has exactly one entry per id. */
  lemma {:induction false} NoDupIdsCount(s: seq<Message>)
    requires NoDupIds(s)
    ensures |Ids(s)| == |s|
  {
    if s != [] {
      var t := s[1..];
      NoDupIdsCount(t);
      IdsAppend([s[0]], t);
      assert s == [s[0]] + t;
      assert Ids([s[0]]) == {s[0].id};
      assert s[0].id !in Ids(t);
    }
  }
}
