/** The list that `dry_delete` of src/services/directory.py returns: by kind, then by id. */
module DryRunListing {
  import opened Hierarchy
  import opened Sequences
  import opened StringOrder

  datatype Kind = Directory | Note | Attachment

  datatype Child = Child(id: Id, kind: Kind)

  function KindOrder(kind: Kind): nat {
    match kind
    case Directory => 0
    case Note => 1
    case Attachment => 2
  }

  predicate Precedes(a: Child, b: Child) {
    KindOrder(a.kind) < KindOrder(b.kind) || (a.kind == b.kind && Before(a.id, b.id))
  }

  lemma PrecedesIsOrder()
    ensures StrictOrder(Precedes)
  {
    forall c: Child
      ensures !Precedes(c, c)
    {
      BeforeIrreflexive(c.id);
    }
    forall a: Child, b: Child, c: Child | Precedes(a, b) && Precedes(b, c)
      ensures Precedes(a, c)
    {
      if a.kind == b.kind == c.kind {
        BeforeTransitive(a.id, b.id, c.id);
      }
    }
  }

  /** The listing of children without duplicates is the ascending permutation of them. */
  lemma ListingIsSorted(children: seq<Child>)
    requires forall i, j :: 0 <= i < j < |children| ==> children[i] != children[j]
    ensures Ascending(Precedes, Sorted(Precedes, children))
    ensures multiset(Sorted(Precedes, children)) == multiset(children)
  {
    hide Sorted, StrictOrder, Before;
    PrecedesIsOrder();
    forall i, j | 0 <= i < j < |children|
      ensures Precedes(children[i], children[j]) || Precedes(children[j], children[i])
    {
      BeforeTotal(children[i].id, children[j].id);
    }
    SortedAscending(Precedes, children);
  }
}
