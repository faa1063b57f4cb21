/**
 * The behaviours of the store, each played out on a fresh
 * collection: case asymmetry, duplicate suppression, cascading deletion,
 * the subject-level exclusion of `not_match`, and the reset of `load`.
 */
module Scenarios {
  import opened Text
  import opened Facts
  import opened Rdf

  /** Subject and predicate are found in any case; the object only in its own. */
  method CaseAsymmetry() returns (otherCase: bool, objectRecased: bool)
    ensures otherCase && !objectRecased
  {
    var c := new RDFCollection();
    c.AddEntity("a", "b", "c");
    assert Upper("a") == Upper("A") == "A";
    assert Upper("b") == Upper("B") == "B";
    otherCase := c.HasObject("A", "B", "c");
    objectRecased := c.HasObject("a", "b", "C");
  }

  /** Adding the same fact twice, in different cases, stores it once. */
  method DuplicateAdd() returns (count: nat)
    ensures count == 1
  {
    var c := new RDFCollection();
    c.AddEntity("x", "p", "o");
    assert Upper("x") == Upper("X");
    assert Upper("p") == Upper("P");
    c.AddEntity("X", "P", "o");
    count := |c.entities|;
  }

  /** Deleting a predicate removes every fact under it and the predicate key. */
  method CascadeDelete() returns (predicateLeft: bool, subjectLeft: bool, count: nat)
    ensures !predicateLeft && subjectLeft && count == 0
  {
    var c := new RDFCollection();
    c.AddEntity("A", "B", "C");
    c.AddEntity("A", "B", "D");
    c.DeleteEntity("A", Some("B"), None);
    predicateLeft := c.HasPredicate("A", "B");
    subjectLeft := c.HasSubject("A");
    count := |c.entities|;
  }

  /**
   * Naming a predicate the subject does not have falls through to the
   * subject branch: every fact of the subject goes.
   */
  method AbsentPredicateDelete() returns (subjectLeft: bool, count: nat)
    ensures !subjectLeft && count == 0
  {
    var c := new RDFCollection();
    UpperFixed("A");
    UpperFixed("B");
    UpperFixed("Q");
    c.AddEntity("A", "B", "C");
    assert c.subjects == map["A" := map["B" := map["C" := Entity("A", "B", "C")]]];
    assert c.DeleteScope("A", Some("Q"), None) == WholeSubject;
    c.DeleteEntity("A", Some("Q"), None);
    subjectLeft := c.HasSubject("A");
    count := |c.entities|;
  }

  /** A fresh collection holding one fact about subject "A". */
  method OneFact() returns (c: RDFCollection)
    ensures fresh(c) && c.Valid()
    ensures c.entities == [Entity("A", "P1", "X")]
  {
    c := new RDFCollection();
    UpperFixed("A");
    UpperFixed("P1");
    c.AddEntity("A", "P1", "X");
  }

  /** Adds a second, unrelated-looking fact about the same subject. */
  method SecondFact(c: RDFCollection)
    requires c.Valid() && c.entities == [Entity("A", "P1", "X")]
    modifies c
    ensures c.Valid()
    ensures c.entities == [Entity("A", "P1", "X"), Entity("A", "P2", "Y")]
  {
    UpperFixed("A");
    UpperFixed("P2");
    c.AddEntity("A", "P2", "Y");
  }

  /**
   * `not_match` drops every fact sharing a subject with a match, even one
   * that does not itself fit the pattern.
   */
  method SubjectExclusion() returns (r: seq<Entity>)
    ensures r == []
  {
    var c := OneFact();
    SecondFact(c);
    r := c.NotMatch(None, None, Some("X"));
    SharedSubjectExcluded(Entity("A", "P1", "X"), Entity("A", "P2", "Y"));
  }

  /** Two facts of one subject, one matching an object pattern: `not_match` keeps neither. */
  lemma SharedSubjectExcluded(a: Entity, b: Entity)
    requires a.subj == b.subj
    ensures NotMatching([a, b], None, None, Some(a.obj)) == []
  {
    var es := [a, b];
    assert Agrees(a, None, None, Some(a.obj));
    assert a.subj in MatchedSubjects(es, None, None, Some(a.obj));
    ghost var gone := set e | e in es && e.subj in MatchedSubjects(es, None, None, Some(a.obj));
    assert a in gone && b in gone;
    assert es[1..] == [b];
    assert DropSet([b], gone) == [];
  }

  /** `load` with no files empties a non-empty store and reports 0. */
  method Reset() returns (count: nat, left: nat)
    ensures count == 0 && left == 0
  {
    var c := new RDFCollection();
    c.AddEntity("A", "B", "C");
    count := c.LoadNoFiles();
    left := |c.entities|;
  }
}
