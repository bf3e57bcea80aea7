/** The optional value used for the nullable fields of a message. */
module Wrappers {
  datatype Option<+T> = None | Some(value: T)
}

/**
 * The order `sortBy(…, 'createdAt')` sorts by: plain lexicographic order on
 * strings, extended to an optional key.  A missing `createdAt` is placed
 * after every present one and ties with another missing one; this is a
 * convention of the model, not something the application states.
 */
module KeyOrder {
  import opened Wrappers

  /** `a <= b` lexicographically: `a` is a prefix of `b`, or at the first
      position where they differ `a` holds the smaller character. */
  predicate StrLe(a: string, b: string)
    decreases |a|
  {
    |a| == 0 || (|b| > 0 && (a[0] < b[0] || (a[0] == b[0] && StrLe(a[1..], b[1..]))))
  }

  lemma {:induction false} StrLeReflexive(a: string)
    ensures StrLe(a, a)
    decreases |a|
  {
    if |a| > 0 { StrLeReflexive(a[1..]); }
  }

  lemma {:induction false} StrLeTotal(a: string, b: string)
    ensures StrLe(a, b) || StrLe(b, a)
    decreases |a|
  {
    if |a| > 0 && |b| > 0 && a[0] == b[0] { StrLeTotal(a[1..], b[1..]); }
  }

  lemma {:induction false} StrLeAntisymmetric(a: string, b: string)
    requires StrLe(a, b) && StrLe(b, a)
    ensures a == b
    decreases |a|
  {
    if |a| > 0 {
      StrLeAntisymmetric(a[1..], b[1..]);
      assert a == [a[0]] + a[1..] && b == [b[0]] + b[1..];
    }
  }

  lemma {:induction false} StrLeTransitive(a: string, b: string, c: string)
    requires StrLe(a, b) && StrLe(b, c)
    ensures StrLe(a, c)
    decreases |a|
  {
    if |a| > 0 && a[0] == b[0] && b[0] == c[0] {
      StrLeTransitive(a[1..], b[1..], c[1..]);
    }
  }

  /** The comparison on `createdAt` keys. */
  predicate KeyLe(a: Option<string>, b: Option<string>)
  {
    match a
    case None => b.None?
    case Some(x) => b.None? || StrLe(x, b.value)
  }

  lemma KeyLeReflexive(a: Option<string>)
    ensures KeyLe(a, a)
  {
    if a.Some? { StrLeReflexive(a.value); }
  }

  lemma KeyLeTotal(a: Option<string>, b: Option<string>)
    ensures KeyLe(a, b) || KeyLe(b, a)
  {
    if a.Some? && b.Some? { StrLeTotal(a.value, b.value); }
  }

  lemma KeyLeAntisymmetric(a: Option<string>, b: Option<string>)
    requires KeyLe(a, b) && KeyLe(b, a)
    ensures a == b
  {
    if a.Some? && b.Some? { StrLeAntisymmetric(a.value, b.value); }
  }

  lemma KeyLeTransitive(a: Option<string>, b: Option<string>, c: Option<string>)
    requires KeyLe(a, b) && KeyLe(b, c)
    ensures KeyLe(a, c)
  {
    if a.Some? && b.Some? && c.Some? { StrLeTransitive(a.value, b.value, c.value); }
  }
}
