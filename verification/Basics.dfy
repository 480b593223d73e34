/** Identifiers, optional values, results and the few sequence facts that every component uses. */
module Basics {

  /** A UUID is either random or name-based (version 5). The `NameBased` constructor treats name-based derivation as
      injective, and as never meeting a random id. */
  datatype Uuid = Raw(bits: nat) | NameBased(namespace: Uuid, name: seq<Uuid>)

  /** Wall-clock time; every clock read in the source is a parameter here. */
  type Time = int

  type ScopeId = Uuid

  datatype Option<+T> = None | Some(value: T)

  datatype Result<+T, +E> = Ok(value: T) | Err(error: E)

  ghost predicate NoDup<T>(s: seq<T>) {
    forall i, j :: 0 <= i < j < |s| ==> s[i] != s[j]
  }

  /** `Vec::retain` against a set of values to drop. */
  function Prune<T(==)>(s: seq<T>, gone: set<T>): seq<T> {
    if s == [] then []
    else
      var init := Prune(s[..|s| - 1], gone);
      if s[|s| - 1] in gone then init else init + [s[|s| - 1]]
  }

  lemma {:induction false} PruneMembers<T>(s: seq<T>, gone: set<T>)
    ensures forall x :: x in Prune(s, gone) <==> x in s && x !in gone
    ensures NoDup(s) ==> NoDup(Prune(s, gone))
  {
    if s != [] {
      var front := s[..|s| - 1];
      PruneMembers(front, gone);
      assert s == front + [s[|s| - 1]];
    }
  }

  lemma {:induction false} PruneUnion<T>(s: seq<T>, a: set<T>, b: set<T>)
    ensures Prune(Prune(s, a), b) == Prune(s, a + b)
  {
    if s != [] {
      var front, last := s[..|s| - 1], s[|s| - 1];
      PruneUnion(front, a, b);
      if last !in a {
        var inner := Prune(front, a);
        assert (inner + [last])[..|inner|] == inner;
      }
    }
  }

  lemma {:induction false} PruneNothing<T>(s: seq<T>, gone: set<T>)
    requires forall x :: x in gone ==> x !in s
    ensures Prune(s, gone) == s
  {
    if s != [] {
      var front := s[..|s| - 1];
      PruneNothing(front, gone);
      assert s == front + [s[|s| - 1]];
    }
  }

  /** Pushing a value that is not there and then retaining everything else is the identity. */
  lemma PrunePushed<T>(s: seq<T>, x: T)
    requires x !in s
    ensures Prune(s + [x], {x}) == s
  {
    PruneNothing(s, {x});
    assert (s + [x])[..|s|] == s;
  }

  lemma NoDupPush<T>(s: seq<T>, x: T)
    requires NoDup(s) && x !in s
    ensures NoDup(s + [x])
  {}

  lemma HasMember<T>(s: seq<T>)
    ensures s != [] ==> exists x :: x in s
  {
    if s != [] { assert s[0] in s; }
  }
}
