/**
 * The component's `messages` state: it starts as a single placeholder
 * record, is replaced by the normalised result of the initial fetch, and
 * has every message pushed by the subscription merged into it.
 */
module ChatStore {
  import opened KeyOrder
  import opened Messages
  import opened StableSort
  import opened UniqueById
  import opened Normalization

  class MessageStore {
    /** The list the screen renders, in order. */
    var messages: seq<Message>

    /** Every state the store reaches is a normalised list. */
    ghost predicate Valid()
      reads this
    {
      IsNormal(messages)
    }

    /** The initial state: the one placeholder record. */
    constructor ()
      ensures messages == [Placeholder]
      ensures Valid()
    {
      messages := [Placeholder];
    }

    /** The result of the initial fetch replaces the whole list, whatever it
        held before: the new state depends on the fetched items alone. */
    method Snapshot(items: seq<Message>)
      modifies this
      ensures messages == Normalize(items)
      ensures Valid()
      ensures Ids(messages) == Ids(items)
      ensures forall x :: x in messages ==> x in items
    {
      NormalizeSpec(items);
      messages := Normalize(items);
    }

    /** A message from the subscription is appended to the current list and
        the result normalised again. */
    method Merge(incoming: Message)
      requires Valid()
      modifies this
      ensures messages == Normalize(old(messages) + [incoming])
      ensures Valid()
      ensures Ids(messages) == Ids(old(messages)) + {incoming.id}
      ensures incoming.id !in Ids(old(messages)) ==>
        && messages == old(messages)[..Ahead(old(messages), incoming)] + [incoming]
                       + old(messages)[Ahead(old(messages), incoming)..]
        && |messages| == |old(messages)| + 1
      ensures forall e ::
        (e in old(messages) && e.id == incoming.id && KeyLe(e.createdAt, incoming.createdAt))
        ==> messages == old(messages)
      ensures forall e ::
        (e in old(messages) && e.id == incoming.id && !KeyLe(e.createdAt, incoming.createdAt))
        ==> incoming in messages && e !in messages && |messages| == |old(messages)|
    {
      var before := messages;
      MergedSpec(before, incoming);
      if incoming.id !in Ids(before) {
        MergeNewId(before, incoming);
      }
      forall e | e in before && e.id == incoming.id && KeyLe(e.createdAt, incoming.createdAt)
        ensures Merged(before, incoming) == before
      {
        MergeKeepsExisting(before, incoming, e);
      }
      forall e | e in before && e.id == incoming.id && !KeyLe(e.createdAt, incoming.createdAt)
        ensures incoming in Merged(before, incoming) && e !in Merged(before, incoming)
        ensures |Merged(before, incoming)| == |before|
      {
        MergeReplaces(before, incoming, e);
      }
      messages := before + [incoming];
      messages := SortByCreatedAt(messages);
      messages := UniqById(messages);
    }
  }
}
