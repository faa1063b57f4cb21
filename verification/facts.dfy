/**
 * Stored facts and the list operations the collection performs on its flat
 * list of facts: `list.remove` (drop the first occurrence) and an
 * order-preserving filter that drops every member of a set.
 */
module Facts {

  datatype Option<T> = None | Some(value: T)

  /** An RDF fact: subject, predicate and object, compared field by field. */
  datatype Entity = Entity(subj: string, pred: string, obj: string)

  /** No element occurs twice. */
  predicate NoDup(s: seq<Entity>) {
    forall i, j | 0 <= i < j < |s| :: s[i] != s[j]
  }

  /** The elements of `s` outside `gone`, in their original relative order. */
  function DropSet(s: seq<Entity>, gone: set<Entity>): (r: seq<Entity>)
    ensures forall x :: x in r <==> x in s && x !in gone
    ensures |r| <= |s|
    ensures NoDup(s) ==> NoDup(r)
  {
    if s == [] then []
    else if s[0] in gone then DropSet(s[1..], gone)
    else
      var tail := DropSet(s[1..], gone);
      assert NoDup(s) ==> NoDup(s[1..]) && s[0] !in s[1..] by {
        if NoDup(s) {
          NoDupTail(s);
        }
      }
      [s[0]] + tail
  }

  /** `list.remove(x)`: the list without the first occurrence of `x`. */
  function RemoveFirst(s: seq<Entity>, x: Entity): (r: seq<Entity>)
    requires x in s
    ensures |r| == |s| - 1
    ensures multiset(r) == multiset(s) - multiset{x}
  {
    if s[0] == x then
      assert s == [s[0]] + s[1..];
      s[1..]
    else
      assert s == [s[0]] + s[1..];
      [s[0]] + RemoveFirst(s[1..], x)
  }

  /** A tail of a duplicate-free sequence is duplicate-free and lacks the head. */
  lemma NoDupTail(s: seq<Entity>)
    requires NoDup(s) && s != []
    ensures NoDup(s[1..]) && s[0] !in s[1..]
  {
    forall k | 0 <= k < |s[1..]| ensures s[1..][k] != s[0] {
      assert s[1..][k] == s[k + 1];
    }
    forall i, j | 0 <= i < j < |s[1..]| ensures s[1..][i] != s[1..][j] {
      assert s[1..][i] == s[i + 1] && s[1..][j] == s[j + 1];
    }
  }

  /** Dropping nothing leaves the sequence as it was. */
  lemma {:induction false} DropSetNothing(s: seq<Entity>)
    ensures DropSet(s, {}) == s
  {
    if s != [] {
      DropSetNothing(s[1..]);
      assert s == [s[0]] + s[1..];
    }
  }

  /**
   * Removing one more element that is present in a duplicate-free list is
   * the same as dropping it: this is what makes `list.remove` inside the
   * deletion loops equal to a filter, whatever the order of the removals.
   */
  lemma {:induction false} RemoveFirstOfDrop(s: seq<Entity>, gone: set<Entity>, x: Entity)
    requires NoDup(s)
    requires x in DropSet(s, gone)
    ensures RemoveFirst(DropSet(s, gone), x) == DropSet(s, gone + {x})
  {
    NoDupTail(s);
    if s[0] in gone {
      RemoveFirstOfDrop(s[1..], gone, x);
    } else if s[0] == x {
      DropSetIgnores(s[1..], gone, x);
    } else {
      RemoveFirstOfDrop(s[1..], gone, x);
    }
  }

  /** Adding to `gone` an element that is already absent changes nothing. */
  lemma {:induction false} DropSetIgnores(s: seq<Entity>, gone: set<Entity>, x: Entity)
    requires x !in DropSet(s, gone)
    ensures DropSet(s, gone + {x}) == DropSet(s, gone)
  {
    if s != [] {
      DropSetIgnores(s[1..], gone, x);
    }
  }

  /** In a duplicate-free list, `list.remove(x)` equals filtering `x` out. */
  lemma RemoveFirstIsDrop(s: seq<Entity>, x: Entity)
    requires NoDup(s) && x in s
    ensures RemoveFirst(s, x) == DropSet(s, {x})
  {
    DropSetNothing(s);
    RemoveFirstOfDrop(s, {}, x);
    assert {} + {x} == {x};
  }

  /**
   * Two successive drops are one drop of the union; only the elements that
   * occur in `s` matter, so `gone` may be any set that agrees on them.
   */
  lemma {:induction false} DropSetThen(s: seq<Entity>, g1: set<Entity>, g2: set<Entity>, gone: set<Entity>)
    requires forall x | x in s :: x in gone <==> x in g1 || x in g2
    ensures DropSet(DropSet(s, g1), g2) == DropSet(s, gone)
  {
    if s != [] {
      DropSetThen(s[1..], g1, g2, gone);
    }
  }

  /** Only the members of `s` matter in what is dropped. */
  lemma {:induction false} DropSetAgree(s: seq<Entity>, g1: set<Entity>, g2: set<Entity>)
    requires forall x | x in s :: x in g1 <==> x in g2
    ensures DropSet(s, g1) == DropSet(s, g2)
  {
    if s != [] {
      DropSetAgree(s[1..], g1, g2);
    }
  }

  /** Concatenating two duplicate-free sequences with no common element. */
  lemma NoDupConcat(a: seq<Entity>, b: seq<Entity>)
    requires NoDup(a) && NoDup(b)
    requires forall x | x in a :: x !in b
    ensures NoDup(a + b)
  {
    forall i, j | 0 <= i < j < |a + b| ensures (a + b)[i] != (a + b)[j] {
      if j < |a| {
      } else if i < |a| {
        assert (a + b)[i] in a && (a + b)[j] in b;
      } else {
        assert (a + b)[i] == b[i - |a|] && (a + b)[j] == b[j - |a|];
      }
    }
  }

  /** In a duplicate-free sequence every element occurs exactly once. */
  lemma {:induction false} NoDupOccursOnce(s: seq<Entity>, x: Entity)
    requires NoDup(s)
    ensures multiset(s)[x] == if x in s then 1 else 0
  {
    if s != [] {
      NoDupTail(s);
      NoDupOccursOnce(s[1..], x);
      assert s == [s[0]] + s[1..];
    }
  }

  /**
   * Two duplicate-free sequences with the same elements are permutations of
   * each other.
   */
  lemma SameElementsSameMultiset(a: seq<Entity>, b: seq<Entity>)
    requires NoDup(a) && NoDup(b)
    requires forall x :: x in a <==> x in b
    ensures multiset(a) == multiset(b)
  {
    forall x ensures multiset(a)[x] == multiset(b)[x] {
      NoDupOccursOnce(a, x);
      NoDupOccursOnce(b, x);
    }
  }
}
