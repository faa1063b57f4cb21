/**
 * An in-memory RDF triple store.  Facts are indexed by a three-level map
 * (upper-cased subject, then upper-cased predicate, then the exact object)
 * and kept, in insertion order, in a flat list; every mutation keeps the two
 * in step.
 */
module Rdf {
  import opened Text
  import opened Facts

  /** The separator between the fields of a line of an RDF file. */
  const Separator: char := ':'

  /**
   * Splits a `subject:predicate:object` line.  Lines with more than three
   * fields keep everything after the second separator as the object.
   */
  function SplitLine(line: string): (r: seq<string>)
    ensures |r| == if Count(line, Separator) >= 2 then 3 else Count(line, Separator) + 1
    ensures forall i | 0 <= i < |r| - 1 :: Separator !in r[i]
    ensures Join(r, Separator) == line
  {
    var splits := Split(line, Separator);
    JoinSplit(line, Separator);
    if |splits| > 3 then
      assert splits == [splits[0], splits[1]] + splits[2..];
      JoinRegroup(splits[0], splits[1], splits[2..], Separator);
      [splits[0], splits[1], Join(splits[2..], Separator)]
    else
      splits
  }

  /**
   * A search argument as the store compares it: subjects and predicates
   * upper-cased, so a normalised argument is already a key's own form.
   */
  function Normalise(x: Option<string>): (r: Option<string>)
    ensures r.Some? ==> Upper(r.value) == r.value
  {
    if x.Some? then
      UpperIdempotent(x.value);
      Some(Upper(x.value))
    else None
  }

  /** A fact lies within an already-normalised pattern; `None` stands for any value. */
  predicate Fits(e: Entity, s: Option<string>, p: Option<string>, o: Option<string>) {
    (s.None? || e.subj == s.value) &&
    (p.None? || e.pred == p.value) &&
    (o.None? || e.obj == o.value)
  }

  /**
   * A fact agrees with the search arguments `s`, `p`, `o`: subject and
   * predicate up to case, object exactly.
   */
  predicate Agrees(e: Entity, s: Option<string>, p: Option<string>, o: Option<string>) {
    Fits(e, Normalise(s), Normalise(p), o)
  }

  /** Subject -> predicate -> object -> fact. */
  type Index = map<string, map<string, map<string, Entity>>>

  /** The fact `e` is reachable in `idx` along its own three keys. */
  predicate Stored(idx: Index, e: Entity) {
    e.subj in idx && e.pred in idx[e.subj] && e.obj in idx[e.subj][e.pred]
  }

  /** Keys are upper-cased where they must be, and each fact sits under its own fields. */
  ghost predicate WellFormed(idx: Index) {
    (forall s | s in idx :: Upper(s) == s) &&
    (forall s, p | s in idx && p in idx[s] :: Upper(p) == p) &&
    (forall s, p, o | s in idx && p in idx[s] && o in idx[s][p] :: idx[s][p][o] == Entity(s, p, o))
  }

  /** `idx` after storing `e`, creating its subject and predicate levels if needed. */
  function Inserted(idx: Index, e: Entity): (r: Index)
    ensures Stored(r, e)
    ensures forall x | Stored(idx, x) :: Stored(r, x)
  {
    var preds := if e.subj in idx then idx[e.subj] else map[];
    var objs := if e.pred in preds then preds[e.pred] else map[];
    idx[e.subj := preds[e.pred := objs[e.obj := e]]]
  }

  /**
   * `Inserted` is what `add_entity` does step by step: create the subject
   * level if missing, then the predicate level if missing, then store.
   */
  lemma InsertedInSteps(idx: Index, e: Entity)
    ensures var withSubject := if e.subj in idx then idx else idx[e.subj := map[]];
      var withPredicate :=
        if e.pred in withSubject[e.subj] then withSubject
        else withSubject[e.subj := withSubject[e.subj][e.pred := map[]]];
      Inserted(idx, e) ==
        withPredicate[e.subj := withPredicate[e.subj][e.pred := withPredicate[e.subj][e.pred][e.obj := e]]]
  {
    if e.subj !in idx {
      var w := idx[e.subj := map[]];
      assert w[e.subj] == map[];
      var v := w[e.subj := map[e.pred := map[]]];
      assert v[e.subj][e.pred] == map[];
      var inner: map<string, map<string, Entity>> := map[e.pred := map[]];
      assert v[e.subj] == inner;
      assert inner[e.pred := map[e.obj := e]] == map[e.pred := map[e.obj := e]];
      assert v[e.subj := map[e.pred := map[e.obj := e]]] == idx[e.subj := map[e.pred := map[e.obj := e]]];
    } else if e.pred !in idx[e.subj] {
      var v := idx[e.subj := idx[e.subj][e.pred := map[]]];
      assert v[e.subj] == idx[e.subj][e.pred := map[]];
      assert v[e.subj][e.pred] == map[];
      assert idx[e.subj][e.pred := map[]][e.pred := map[e.obj := e]] == idx[e.subj][e.pred := map[e.obj := e]];
    }
  }

  /** The index and the flat list hold the same facts. */
  ghost predicate Consistent(idx: Index, es: seq<Entity>) {
    forall e :: e in es <==> Stored(idx, e)
  }

  /** A list that drops exactly the facts the index lost stays consistent with it. */
  lemma ConsistentAfterDrop(idx: Index, idx': Index, es: seq<Entity>, gone: set<Entity>)
    requires Consistent(idx, es)
    requires forall x :: Stored(idx', x) <==> Stored(idx, x) && x !in gone
    ensures Consistent(idx', DropSet(es, gone))
  {
  }

  /** Replacing one predicate's object map by one whose facts sit under their own keys keeps the index well formed. */
  lemma WellFormedObjects(idx: Index, subj: string, pred: string, m: map<string, Entity>)
    requires WellFormed(idx) && subj in idx && pred in idx[subj]
    requires forall o | o in m :: m[o] == Entity(subj, pred, o)
    ensures WellFormed(idx[subj := idx[subj][pred := m]])
  {
    var r := idx[subj := idx[subj][pred := m]];
    forall s | s in r ensures Upper(s) == s {
      assert s in idx;
    }
    forall s, p | s in r && p in r[s] ensures Upper(p) == p {
      assert p in idx[s];
    }
    forall s, p, o | s in r && p in r[s] && o in r[s][p] ensures r[s][p][o] == Entity(s, p, o) {
      if s != subj || p != pred {
        assert r[s][p] == idx[s][p];
      }
    }
  }

  /** Removing a predicate key keeps the index well formed. */
  lemma WellFormedDropPredicate(idx: Index, subj: string, pred: string)
    requires WellFormed(idx) && subj in idx
    ensures WellFormed(idx[subj := idx[subj] - {pred}])
  {
    var r := idx[subj := idx[subj] - {pred}];
    forall s, p | s in r && p in r[s] ensures Upper(p) == p {
      assert p in idx[s];
    }
    forall s, p, o | s in r && p in r[s] && o in r[s][p] ensures r[s][p][o] == Entity(s, p, o) {
      assert r[s][p] == idx[s][p];
    }
  }

  /** Storing a fact keeps the list's no-duplicate and consistency properties when it is appended. */
  lemma InsertKeepsStore(idx: Index, es: seq<Entity>, e: Entity)
    requires WellFormed(idx) && NoDup(es) && Consistent(idx, es)
    requires Upper(e.subj) == e.subj && Upper(e.pred) == e.pred
    requires !Stored(idx, e)
    ensures WellFormed(Inserted(idx, e)) && NoDup(es + [e]) && Consistent(Inserted(idx, e), es + [e])
  {
    InsertedKeepsIndex(idx, e);
    NoDupConcat(es, [e]);
  }

  /** Removing one fact's object key and the fact itself keeps the two structures in step. */
  lemma RemoveObjectKeepsStore(idx: Index, es: seq<Entity>, e: Entity)
    requires WellFormed(idx) && NoDup(es) && Consistent(idx, es)
    requires Stored(idx, e)
    ensures var idx' := idx[e.subj := idx[e.subj][e.pred := idx[e.subj][e.pred] - {e.obj}]];
      WellFormed(idx') && NoDup(DropSet(es, {e})) && Consistent(idx', DropSet(es, {e}))
  {
    var m := idx[e.subj][e.pred] - {e.obj};
    var idx' := idx[e.subj := idx[e.subj][e.pred := m]];
    WellFormedObjects(idx, e.subj, e.pred, m);
    forall x ensures Stored(idx', x) <==> Stored(idx, x) && x !in {e} {
      if x.subj == e.subj && x.pred == e.pred && x.obj == e.obj {
        assert x == e;
      }
    }
    ConsistentAfterDrop(idx, idx', es, {e});
  }

  /** Emptying one predicate's object map and dropping its facts keeps the two structures in step. */
  lemma ClearPredicateKeepsStore(idx: Index, es: seq<Entity>, subj: string, pred: string)
    requires WellFormed(idx) && NoDup(es) && Consistent(idx, es)
    requires subj in idx && pred in idx[subj]
    ensures var idx' := idx[subj := idx[subj][pred := map[]]];
      var es' := DropSet(es, Under(es, subj, {pred}));
      WellFormed(idx') && NoDup(es') && Consistent(idx', es')
  {
    var idx' := idx[subj := idx[subj][pred := map[]]];
    WellFormedObjects(idx, subj, pred, map[]);
    forall x ensures Stored(idx', x) <==> Stored(idx, x) && x !in Under(es, subj, {pred}) {
      if Stored(idx, x) {
        assert x in es;
      }
    }
    ConsistentAfterDrop(idx, idx', es, Under(es, subj, {pred}));
  }

  /** Removing a predicate key whose object map is empty changes no fact. */
  lemma RemoveEmptyPredicateKeepsStore(idx: Index, es: seq<Entity>, subj: string, pred: string)
    requires WellFormed(idx) && Consistent(idx, es)
    requires subj in idx && pred in idx[subj] && idx[subj][pred] == map[]
    ensures var idx' := idx[subj := idx[subj] - {pred}];
      WellFormed(idx') && Consistent(idx', es)
  {
    var idx' := idx[subj := idx[subj] - {pred}];
    WellFormedDropPredicate(idx, subj, pred);
    forall e ensures Stored(idx', e) <==> Stored(idx, e) {
    }
  }

  /** Removing a subject key together with its facts keeps the two structures in step. */
  lemma RemoveSubjectKeepsStore(idx: Index, es: seq<Entity>, subj: string)
    requires WellFormed(idx) && NoDup(es) && Consistent(idx, es)
    requires subj in idx
    ensures var es' := DropSet(es, OfSubject(es, subj));
      WellFormed(idx - {subj}) && NoDup(es') && Consistent(idx - {subj}, es')
  {
    forall x ensures Stored(idx - {subj}, x) <==> Stored(idx, x) && x !in OfSubject(es, subj) {
      if Stored(idx, x) {
        assert x in es;
      }
    }
    ConsistentAfterDrop(idx, idx - {subj}, es, OfSubject(es, subj));
  }

  /**
   * Storing a fact keeps the index well formed, and the facts reachable
   * afterwards are those reachable before plus the new one.
   */
  lemma InsertedKeepsIndex(idx: Index, e: Entity)
    requires WellFormed(idx)
    requires Upper(e.subj) == e.subj && Upper(e.pred) == e.pred
    ensures WellFormed(Inserted(idx, e))
    ensures forall x :: Stored(Inserted(idx, e), x) <==> Stored(idx, x) || x == e
  {
    var r := Inserted(idx, e);
    var preds := if e.subj in idx then idx[e.subj] else map[];
    var objs := if e.pred in preds then preds[e.pred] else map[];
    assert r == idx[e.subj := preds[e.pred := objs[e.obj := e]]];
    forall s, p | s in r && p in r[s] ensures Upper(p) == p {
      if s != e.subj {
        assert p in idx[s];
      } else if p != e.pred {
        assert p in idx[s];
      }
    }
    forall s, p, o | s in r && p in r[s] && o in r[s][p] ensures r[s][p][o] == Entity(s, p, o) {
      if s != e.subj {
        assert r[s] == idx[s];
      } else if p != e.pred {
        assert r[s][p] == idx[s][p];
      } else if o != e.obj {
        assert r[s][p][o] == objs[o];
      }
    }
    forall x ensures Stored(r, x) <==> Stored(idx, x) || x == e {
      if x.subj == e.subj && x.pred == e.pred && x.obj == e.obj {
        assert x == e;
      }
    }
  }

  /** Storing a fact that is already reachable leaves the index unchanged. */
  lemma InsertedExisting(idx: Index, e: Entity)
    requires WellFormed(idx) && Stored(idx, e)
    ensures Inserted(idx, e) == idx
  {
    assert idx[e.subj][e.pred][e.obj] == e;
    assert idx[e.subj][e.pred][e.obj := e] == idx[e.subj][e.pred];
    assert idx[e.subj][e.pred := idx[e.subj][e.pred]] == idx[e.subj];
  }

  /** The facts of `es` about `subj` whose predicate is one of `preds`. */
  ghost function Under(es: seq<Entity>, subj: string, preds: set<string>): set<Entity> {
    set e | e in es && e.subj == subj && e.pred in preds
  }

  /** The facts of `es` about `subj`. */
  ghost function OfSubject(es: seq<Entity>, subj: string): set<Entity> {
    set e | e in es && e.subj == subj
  }

  /** The keys listed in a sequence. */
  ghost function KeySet(keys: seq<string>): set<string> {
    set k | k in keys
  }

  /** The facts a predicate's object keys stand for. */
  ghost function ObjectFacts(subj: string, pred: string, keys: set<string>): set<Entity> {
    set k | k in keys :: Entity(subj, pred, k)
  }

  /**
   * One step of the object loop of `delete_entity`: the fact under a key not
   * yet visited is still in the list, and `list.remove` of it drops it.
   */
  lemma RemoveOneObject(idx: Index, es: seq<Entity>, subj: string, pred: string, done: set<string>, k: string)
    requires WellFormed(idx) && NoDup(es) && Consistent(idx, es)
    requires subj in idx && pred in idx[subj] && k in idx[subj][pred] && k !in done
    ensures idx[subj][pred][k] == Entity(subj, pred, k)
    ensures Entity(subj, pred, k) in DropSet(es, ObjectFacts(subj, pred, done))
    ensures RemoveFirst(DropSet(es, ObjectFacts(subj, pred, done)), Entity(subj, pred, k))
      == DropSet(es, ObjectFacts(subj, pred, done + {k}))
  {
    var e := Entity(subj, pred, k);
    assert Stored(idx, e);
    assert e !in ObjectFacts(subj, pred, done);
    RemoveFirstOfDrop(es, ObjectFacts(subj, pred, done), e);
    assert ObjectFacts(subj, pred, done) + {e} == ObjectFacts(subj, pred, done + {k});
  }

  /** Dropping the facts of all object keys of a predicate is dropping the predicate's facts. */
  lemma ObjectFactsAll(idx: Index, es: seq<Entity>, subj: string, pred: string)
    requires WellFormed(idx) && Consistent(idx, es)
    requires subj in idx && pred in idx[subj]
    ensures DropSet(es, ObjectFacts(subj, pred, idx[subj][pred].Keys)) == DropSet(es, Under(es, subj, {pred}))
  {
    forall x | x in es
      ensures x in ObjectFacts(subj, pred, idx[subj][pred].Keys) <==> x in Under(es, subj, {pred})
    {
      assert Stored(idx, x);
    }
    DropSetAgree(es, ObjectFacts(subj, pred, idx[subj][pred].Keys), Under(es, subj, {pred}));
  }

  /**
   * Clearing one more predicate of a subject, after some have been cleared
   * already, drops the facts of all of them.
   */
  lemma ClearOneMore(es: seq<Entity>, subj: string, done: set<string>, pred: string)
    ensures var rest := DropSet(es, Under(es, subj, done));
      DropSet(rest, Under(rest, subj, {pred})) == DropSet(es, Under(es, subj, done + {pred}))
  {
    var rest := DropSet(es, Under(es, subj, done));
    DropSetThen(es, Under(es, subj, done), Under(rest, subj, {pred}), Under(es, subj, done + {pred}));
  }

  /** In a consistent store the facts of a subject are those under its predicate keys. */
  lemma OfSubjectByPredicates(idx: Index, es: seq<Entity>, subj: string)
    requires WellFormed(idx) && Consistent(idx, es) && subj in idx
    ensures Under(es, subj, idx[subj].Keys) == OfSubject(es, subj)
  {
  }

  /** Overwriting one object map twice keeps only the second write. */
  lemma ObjectsOverwrite(idx: Index, subj: string, pred: string, x: map<string, Entity>, y: map<string, Entity>)
    requires subj in idx
    ensures var i1 := idx[subj := idx[subj][pred := x]];
      i1[subj := i1[subj][pred := y]] == idx[subj := idx[subj][pred := y]]
  {
    var i1 := idx[subj := idx[subj][pred := x]];
    assert i1[subj][pred := y] == idx[subj][pred := y];
  }

  /** Overwriting one subject's predicate map twice keeps only the second write. */
  lemma SubjectOverwrite(idx: Index, subj: string, x: map<string, map<string, Entity>>, y: map<string, map<string, Entity>>)
    ensures idx[subj := x][subj := y] == idx[subj := y]
    ensures subj in idx && idx[subj] == y ==> idx[subj := y] == idx
    ensures idx[subj := x] - {subj} == idx - {subj}
  {
  }

  /** Taking every key out of a map leaves it empty. */
  lemma NoKeysLeft(m: map<string, Entity>)
    ensures m - m.Keys == map[]
  {
  }

  /** Emptying a predicate and then removing it is removing it. */
  lemma EmptyThenRemove(idx: Index, subj: string, pred: string)
    requires subj in idx
    ensures var i1 := idx[subj := idx[subj][pred := map[]]];
      i1[subj := i1[subj] - {pred}] == idx[subj := idx[subj] - {pred}]
  {
    var i1 := idx[subj := idx[subj][pred := map[]]];
    assert i1[subj] - {pred} == idx[subj] - {pred};
  }

  /** Writing a level back unchanged leaves the index as it was. */
  lemma UpdateSame(idx: Index, subj: string, pred: string)
    requires subj in idx && pred in idx[subj]
    ensures idx[subj := idx[subj][pred := idx[subj][pred]]] == idx
  {
    assert idx[subj][pred := idx[subj][pred]] == idx[subj];
  }

  /** The subjects of the stored facts that agree with a pattern. */
  ghost function MatchedSubjects(es: seq<Entity>, s: Option<string>, p: Option<string>, o: Option<string>): set<string> {
    set e | e in es && Agrees(e, s, p, o) :: e.subj
  }

  /**
   * The result of `not_match`: the stored facts, in order, without every fact
   * that shares its subject with some fact agreeing with the pattern.
   */
  ghost function NotMatching(es: seq<Entity>, s: Option<string>, p: Option<string>, o: Option<string>): seq<Entity> {
    DropSet(es, set e | e in es && e.subj in MatchedSubjects(es, s, p, o))
  }

  /** The subjects of a list of facts. */
  ghost function SubjectsOf(ms: seq<Entity>): set<string> {
    set m | m in ms :: m.subj
  }

  /** The subjects of a complete, sound list of matches are the matched subjects. */
  lemma SubjectsOfMatches(matched: seq<Entity>, es: seq<Entity>, s: Option<string>, p: Option<string>, o: Option<string>)
    requires forall e :: e in matched <==> e in es && Agrees(e, s, p, o)
    ensures SubjectsOf(matched) == MatchedSubjects(es, s, p, o)
  {
    forall x | x in MatchedSubjects(es, s, p, o) ensures x in SubjectsOf(matched) {
      var e :| e in es && Agrees(e, s, p, o) && e.subj == x;
      assert e in matched;
    }
  }

  /**
   * A fact survives `not_match` exactly when no agreeing fact has its
   * subject: the exclusion is by subject, not by triple.
   */
  lemma NotMatchingMembers(es: seq<Entity>, s: Option<string>, p: Option<string>, o: Option<string>, x: Entity)
    ensures x in NotMatching(es, s, p, o) <==>
      x in es && forall m | m in es && Agrees(m, s, p, o) :: m.subj != x.subj
  {
    if x in es && x !in NotMatching(es, s, p, o) {
      var m :| m in es && Agrees(m, s, p, o) && m.subj == x.subj;
    }
  }

  /**
   * The first loop of `not_match`: for each match, every fact of `es` with
   * the match's subject, collected into `to_remove`.
   */
  method SameSubjectFacts(matched: seq<Entity>, es: seq<Entity>) returns (toRemove: seq<Entity>)
    ensures forall e :: e in toRemove <==> e in es && e.subj in SubjectsOf(matched)
  {
    toRemove := [];
    for i := 0 to |matched|
      invariant forall e :: e in toRemove <==> e in es && e.subj in SubjectsOf(matched[..i])
    {
      assert matched[..i + 1] == matched[..i] + [matched[i]];
      for j := 0 to |es|
        invariant forall e :: e in toRemove <==>
          (e in es && e.subj in SubjectsOf(matched[..i])) || (e in es[..j] && e.subj == matched[i].subj)
      {
        assert es[..j + 1] == es[..j] + [es[j]];
        if es[j].subj == matched[i].subj {
          toRemove := toRemove + [es[j]];
        }
      }
      assert es[..|es|] == es;
    }
    assert matched[..|matched|] == matched;
  }

  /**
   * The second loop of `not_match`: `list.remove` of each collected fact
   * still present. On a duplicate-free list this is a filter.
   */
  method RemoveEach(es: seq<Entity>, toRemove: seq<Entity>) returns (remaining: seq<Entity>)
    requires NoDup(es)
    ensures remaining == DropSet(es, set x | x in toRemove)
  {
    remaining := es;
    ghost var gone: set<Entity> := {};
    DropSetNothing(es);
    for k := 0 to |toRemove|
      invariant remaining == DropSet(es, gone)
      invariant gone == set x | x in toRemove[..k]
    {
      if toRemove[k] in remaining {
        RemoveFirstOfDrop(es, gone, toRemove[k]);
        remaining := RemoveFirst(remaining, toRemove[k]);
      } else {
        DropSetIgnores(es, gone, toRemove[k]);
      }
      gone := gone + {toRemove[k]};
      assert toRemove[..k + 1] == toRemove[..k] + [toRemove[k]];
    }
    assert toRemove[..|toRemove|] == toRemove;
  }

  /** Which branch of `delete_entity` a call takes. */
  datatype Scope = Triple | WholePredicate | WholeSubject | NoScope

  class RDFCollection {
    /** `_subjects`: the nested index. */
    var subjects: Index
    /** `_entities`: the stored facts in insertion order. */
    var entities: seq<Entity>

    /**
     * The index is well formed, the list has no duplicates, and a fact is in
     * the list exactly when it is reachable in the index.
     */
    ghost predicate Valid()
      reads this
    {
      WellFormed(subjects) && NoDup(entities) && Consistent(subjects, entities)
    }

    constructor ()
      ensures Valid()
      ensures subjects == map[] && entities == []
    {
      subjects := map[];
      entities := [];
    }

    /** Whether `s`, up to case, is a subject key: the subject of every stored fact is. */
    function HasSubject(s: string): (b: bool)
      reads this
      ensures Valid() ==> forall e | e in entities && e.subj == Upper(s) :: b
    {
      Upper(s) in subjects
    }

    /**
     * Whether `p`, up to case, is a predicate key under the subject `s`:
     * never without the subject, always for a stored fact's predicate.
     */
    function HasPredicate(s: string, p: string): (b: bool)
      reads this
      ensures b ==> HasSubject(s)
      ensures Valid() ==> forall e | e in entities && e.subj == Upper(s) && e.pred == Upper(p) :: b
    {
      if HasSubject(s) then Upper(p) in subjects[Upper(s)] else false
    }

    /** Whether the fact (s, p, o) is stored: s and p up to case, o exactly. */
    function HasObject(s: string, p: string, o: string): (b: bool)
      reads this
      ensures Valid() ==> (b <==> Entity(Upper(s), Upper(p), o) in entities)
    {
      if HasSubject(s) && HasPredicate(s, p) then o in subjects[Upper(s)][Upper(p)] else false
    }

    /**
     * The lookups ignore the case of subject and predicate but not of the
     * object: asking with upper-cased subject and predicate gives the same
     * answers.
     */
    lemma CaseInsensitiveLookups(s: string, p: string, o: string)
      ensures HasSubject(Upper(s)) == HasSubject(s)
      ensures HasPredicate(Upper(s), Upper(p)) == HasPredicate(s, p)
      ensures HasObject(Upper(s), Upper(p), o) == HasObject(s, p, o)
    {
      UpperIdempotent(s);
      UpperIdempotent(p);
    }

    /** Two spellings of subject and predicate that differ only in case get the same answers. */
    lemma SameUpToCase(s: string, s': string, p: string, p': string, o: string)
      requires |s| == |s'| && forall i | 0 <= i < |s| :: UpperChar(s[i]) == UpperChar(s'[i])
      requires |p| == |p'| && forall i | 0 <= i < |p| :: UpperChar(p[i]) == UpperChar(p'[i])
      ensures HasSubject(s) == HasSubject(s')
      ensures HasPredicate(s, p) == HasPredicate(s', p')
      ensures HasObject(s, p, o) == HasObject(s', p', o)
    {
      UpperAgreesOnCase(s, s');
      UpperAgreesOnCase(p, p');
    }

    /**
     * Every stored fact is found by all three lookups, under any casing of
     * its subject and predicate.
     */
    lemma StoredFactsFound(e: Entity, s: string, p: string)
      requires Valid() && e in entities
      requires Upper(s) == e.subj && Upper(p) == e.pred
      ensures HasSubject(s) && HasPredicate(s, p) && HasObject(s, p, e.obj)
    {
      assert Stored(subjects, e);
    }

    /** The subject keys: every stored fact's subject, each key already upper-case. */
    function Subjects(): (r: set<string>)
      reads this
      ensures Valid() ==> forall e | e in entities :: e.subj in r
      ensures Valid() ==> forall k | k in r :: HasSubject(k) && Upper(k) == k
      ensures forall k :: k in r <== Upper(k) == k && HasSubject(k)
    {
      subjects.Keys
    }

    /** The predicate keys of a subject; the subject must be present. */
    function Predicates(s: string): (r: set<string>)
      reads this
      requires HasSubject(s)
      ensures Valid() ==> forall e | e in entities && e.subj == Upper(s) :: e.pred in r
      ensures Valid() ==> forall q | q in r :: HasPredicate(s, q) && Upper(q) == q
      ensures forall q :: q in r <== Upper(q) == q && HasPredicate(s, q)
    {
      UpperIdempotent(s);
      subjects[Upper(s)].Keys
    }

    /** The objects stored under a subject and predicate, which must be present. */
    function Objects(s: string, p: string): (r: set<string>)
      reads this
      requires HasPredicate(s, p)
      ensures Valid() ==> forall x :: x in r <==> Entity(Upper(s), Upper(p), x) in entities
    {
      subjects[Upper(s)][Upper(p)].Keys
    }

    /** Adds the fact (s, p, o) unless it is already stored. */
    method AddEntity(s: string, p: string, o: string)
      requires Valid()
      modifies this
      ensures Valid()
      ensures HasObject(s, p, o)
      ensures subjects == Inserted(old(subjects), Entity(Upper(s), Upper(p), o))
      ensures entities ==
        if old(HasObject(s, p, o)) then old(entities)
        else old(entities) + [Entity(Upper(s), Upper(p), o)]
      ensures old(HasObject(s, p, o)) ==> subjects == old(subjects)
    {
      var subj := Upper(s);
      var pred := Upper(p);
      UpperIdempotent(s);
      UpperIdempotent(p);
      ghost var e := Entity(subj, pred, o);
      ghost var was := subjects;
      if !HasSubject(subj) {
        subjects := subjects[subj := map[]];
      }
      assert subjects == if subj in was then was else was[subj := map[]];
      if !HasPredicate(subj, pred) {
        subjects := subjects[subj := subjects[subj][pred := map[]]];
      }
      if !HasObject(subj, pred, o) {
        var entity := Entity(subj, pred, o);
        subjects := subjects[subj := subjects[subj][pred := subjects[subj][pred][o := entity]]];
        entities := entities + [entity];
        InsertedInSteps(was, e);
        InsertKeepsStore(was, old(entities), e);
      } else {
        InsertedExisting(was, e);
      }
    }

    /** Which branch `delete_entity(s, p, o)` takes in the current state. */
    function DeleteScope(s: string, p: Option<string>, o: Option<string>): (r: Scope)
      reads this
      ensures r == NoScope <==> !HasSubject(s)
      ensures r == Triple ==> p.Some? && o.Some? && HasObject(s, p.value, o.value)
      ensures r == WholePredicate ==> p.Some? && HasPredicate(s, p.value)
    {
      if p.Some? && o.Some? && HasObject(s, p.value, o.value) then Triple
      else if p.Some? && HasPredicate(s, p.value) then WholePredicate
      else if HasSubject(s) then WholeSubject
      else NoScope
    }

    /**
     * The facts a call `delete_entity(s, p, o)` removes: those agreeing with
     * the pattern widened to the branch taken.
     */
    ghost function Doomed(s: string, p: Option<string>, o: Option<string>): set<Entity>
      reads this
    {
      match DeleteScope(s, p, o)
      case Triple => set e | e in entities && Agrees(e, Some(s), p, o)
      case WholePredicate => set e | e in entities && Agrees(e, Some(s), p, None)
      case WholeSubject => set e | e in entities && Agrees(e, Some(s), None, None)
      case NoScope => {}
    }

    /**
     * What each branch of `delete_entity` removes: the one fact, the facts of
     * the subject under the predicate, or all facts of the subject.
     */
    lemma DoomedByScope(s: string, p: Option<string>, o: Option<string>)
      requires Valid()
      ensures DeleteScope(s, p, o) == Triple ==>
        Doomed(s, p, o) == {Entity(Upper(s), Upper(p.value), o.value)}
      ensures DeleteScope(s, p, o) == WholePredicate ==>
        Doomed(s, p, o) == Under(entities, Upper(s), {Upper(p.value)})
      ensures DeleteScope(s, p, o) == WholeSubject ==>
        Doomed(s, p, o) == OfSubject(entities, Upper(s))
      ensures DeleteScope(s, p, o) == NoScope ==> Doomed(s, p, o) == {}
    {
      var doomed := Doomed(s, p, o);
      match DeleteScope(s, p, o)
      case Triple =>
        var e := Entity(Upper(s), Upper(p.value), o.value);
        assert e in entities && Agrees(e, Some(s), p, o);
        forall x | x in doomed ensures x == e {
        }
      case WholePredicate =>
        forall x ensures x in doomed <==> x in Under(entities, Upper(s), {Upper(p.value)}) {
        }
      case WholeSubject =>
        forall x ensures x in doomed <==> x in OfSubject(entities, Upper(s)) {
        }
      case NoScope =>
    }

    /**
     * Removes the facts under (subj, pred) from the list and then their
     * object keys from the index, leaving the predicate with an empty map.
     * This is the object loop both cascading branches of `delete_entity` run.
     */
    method ClearPredicate(subj: string, pred: string)
      requires Valid()
      requires subj in subjects && pred in subjects[subj]
      modifies this
      ensures Valid()
      ensures entities == DropSet(old(entities), Under(old(entities), subj, {pred}))
      ensures subjects == old(subjects)[subj := old(subjects)[subj][pred := map[]]]
    {
      var objects := subjects[subj][pred];
      var pending := objects.Keys;
      var objKeys: seq<string> := [];
      DropSetNothing(entities);
      assert objects.Keys - pending == {};
      assert ObjectFacts(subj, pred, {}) == {};
      while pending != {}
        invariant pending <= objects.Keys
        invariant subjects == old(subjects)
        invariant objects == old(subjects)[subj][pred]
        invariant entities == DropSet(old(entities), ObjectFacts(subj, pred, objects.Keys - pending))
        invariant forall k :: k in objKeys <==> k in objects.Keys - pending
        decreases pending
      {
        var k :| k in pending;
        ghost var done := objects.Keys - pending;
        RemoveOneObject(old(subjects), old(entities), subj, pred, done, k);
        assert objects[k] == Entity(subj, pred, k);
        entities := RemoveFirst(entities, objects[k]);
        assert entities == DropSet(old(entities), ObjectFacts(subj, pred, done + {k}));
        objKeys := objKeys + [k];
        pending := pending - {k};
        assert objects.Keys - pending == done + {k};
      }
      assert objects.Keys - pending == old(subjects)[subj][pred].Keys;
      ObjectFactsAll(old(subjects), old(entities), subj, pred);
      assert entities == DropSet(old(entities), Under(old(entities), subj, {pred}));
      assert KeySet(objKeys) == objects.Keys;
      NoKeysLeft(objects);
      DeleteObjectKeys(subj, pred, objKeys);
      ClearPredicateKeepsStore(old(subjects), old(entities), subj, pred);
    }

    /**
     * Deletes the given object keys of one predicate from the index, one
     * `del` at a time; the list is not touched.
     */
    method DeleteObjectKeys(subj: string, pred: string, keys: seq<string>)
      requires subj in subjects && pred in subjects[subj]
      modifies this
      ensures entities == old(entities)
      ensures subjects == old(subjects)[subj := old(subjects)[subj][pred := old(subjects)[subj][pred] - KeySet(keys)]]
    {
      ghost var left := subjects[subj][pred];
      UpdateSame(subjects, subj, pred);
      assert left == left - KeySet(keys[..0]);
      for i := 0 to |keys|
        invariant entities == old(entities)
        invariant left == old(subjects)[subj][pred] - KeySet(keys[..i])
        invariant subjects == old(subjects)[subj := old(subjects)[subj][pred := left]]
      {
        ObjectsOverwrite(old(subjects), subj, pred, left, left - {keys[i]});
        subjects := subjects[subj := subjects[subj][pred := subjects[subj][pred] - {keys[i]}]];
        assert keys[..i + 1] == keys[..i] + [keys[i]];
        assert KeySet(keys[..i + 1]) == KeySet(keys[..i]) + {keys[i]};
        left := left - {keys[i]};
      }
      assert keys[..|keys|] == keys;
    }

    /**
     * Removes every fact of `subj` predicate by predicate, then the emptied
     * predicate keys, then the subject key: the subject-cascade branch of
     * `delete_entity`.
     */
    method ClearSubject(subj: string)
      requires Valid()
      requires subj in subjects
      modifies this
      ensures Valid()
      ensures entities == DropSet(old(entities), OfSubject(old(entities), subj))
      ensures subjects == old(subjects) - {subj}
    {
      var preds := subjects[subj];
      var pending := preds.Keys;
      var predKeys: seq<string> := [];
      ghost var done: set<string> := {};
      ghost var cur := preds;
      DropSetNothing(entities);
      assert Under(entities, subj, {}) == {};
      SubjectOverwrite(subjects, subj, preds, preds);
      while pending != {}
        invariant Valid()
        invariant pending <= preds.Keys && done == preds.Keys - pending
        invariant subjects == old(subjects)[subj := cur] && cur.Keys == preds.Keys
        invariant entities == DropSet(old(entities), Under(old(entities), subj, done))
        invariant forall q :: q in predKeys <==> q in done
        decreases pending
      {
        var q :| q in pending;
        ClearOneMore(old(entities), subj, done, q);
        SubjectOverwrite(old(subjects), subj, cur, cur[q := map[]]);
        ClearPredicate(subj, q);
        cur := cur[q := map[]];
        predKeys := predKeys + [q];
        pending := pending - {q};
        done := done + {q};
      }
      assert done == old(subjects)[subj].Keys;
      OfSubjectByPredicates(old(subjects), old(entities), subj);
      var i := 0;
      while i < |predKeys|
        invariant 0 <= i <= |predKeys|
        invariant subjects == old(subjects)[subj := cur]
        invariant entities == DropSet(old(entities), OfSubject(old(entities), subj))
      {
        SubjectOverwrite(old(subjects), subj, cur, cur - {predKeys[i]});
        subjects := subjects[subj := subjects[subj] - {predKeys[i]}];
        cur := cur - {predKeys[i]};
        i := i + 1;
      }
      SubjectOverwrite(old(subjects), subj, cur, cur);
      subjects := subjects - {subj};
      RemoveSubjectKeepsStore(old(subjects), old(entities), subj);
    }

    /** The exact-triple branch of `delete_entity`: one fact and its object key go. */
    method RemoveFact(subj: string, pred: string, obj: string)
      requires Valid()
      requires subj in subjects && pred in subjects[subj] && obj in subjects[subj][pred]
      modifies this
      ensures Valid()
      ensures entities == DropSet(old(entities), {Entity(subj, pred, obj)})
      ensures subjects == old(subjects)[subj := old(subjects)[subj][pred := old(subjects)[subj][pred] - {obj}]]
    {
      var entity := subjects[subj][pred][obj];
      assert entity == Entity(subj, pred, obj) && Stored(subjects, entity);
      RemoveFirstIsDrop(entities, entity);
      RemoveObjectKeepsStore(subjects, entities, entity);
      entities := RemoveFirst(entities, entity);
      subjects := subjects[subj := subjects[subj][pred := subjects[subj][pred] - {obj}]];
    }

    /** The predicate branch of `delete_entity`: clear the predicate, then drop its key. */
    method RemovePredicate(subj: string, pred: string)
      requires Valid()
      requires subj in subjects && pred in subjects[subj]
      modifies this
      ensures Valid()
      ensures entities == DropSet(old(entities), Under(old(entities), subj, {pred}))
      ensures subjects == old(subjects)[subj := old(subjects)[subj] - {pred}]
    {
      EmptyThenRemove(subjects, subj, pred);
      ClearPredicate(subj, pred);
      RemoveEmptyPredicateKeepsStore(subjects, entities, subj, pred);
      subjects := subjects[subj := subjects[subj] - {pred}];
    }

    /**
     * Deletes one fact, a whole predicate of a subject, or a whole subject,
     * whichever branch the arguments and the current state select.
     */
    method DeleteEntity(s: string, p: Option<string>, o: Option<string>)
      requires Valid()
      modifies this
      ensures Valid()
      ensures entities == DropSet(old(entities), old(Doomed(s, p, o)))
      ensures old(DeleteScope(s, p, o)) == Triple ==>
        subjects == old(subjects)[Upper(s) := old(subjects)[Upper(s)][Upper(p.value) :=
          old(subjects)[Upper(s)][Upper(p.value)] - {o.value}]] &&
        !HasObject(s, p.value, o.value) && HasPredicate(s, p.value)
      ensures old(DeleteScope(s, p, o)) == WholePredicate ==>
        subjects == old(subjects)[Upper(s) := old(subjects)[Upper(s)] - {Upper(p.value)}] &&
        !HasPredicate(s, p.value) && HasSubject(s)
      ensures old(DeleteScope(s, p, o)) == WholeSubject ==>
        subjects == old(subjects) - {Upper(s)} && !HasSubject(s)
      ensures old(DeleteScope(s, p, o)) == NoScope ==>
        subjects == old(subjects) && entities == old(entities)
    {
      var subj := Upper(s);
      var pred := Normalise(p);
      UpperIdempotent(s);
      DoomedByScope(s, p, o);
      if pred.Some? && o.Some? && HasObject(subj, pred.value, o.value) {
        RemoveFact(subj, pred.value, o.value);
      } else if pred.Some? && HasPredicate(subj, pred.value) {
        RemovePredicate(subj, pred.value);
      } else if HasSubject(subj) {
        ClearSubject(subj);
      } else {
        DropSetNothing(entities);
      }
    }

    /**
     * The facts stored under `subj` and `pred` whose object is `o` (any
     * object when `o` is `None`): the innermost loop of `match`.
     */
    method MatchObjects(subj: string, pred: string, o: Option<string>) returns (r: seq<Entity>)
      requires Valid()
      requires subj in subjects && pred in subjects[subj]
      ensures NoDup(r)
      ensures forall e :: e in r <==> e in entities && e.subj == subj && e.pred == pred && Fits(e, None, None, o)
    {
      r := [];
      if o.None? {
        var pending := subjects[subj][pred].Keys;
        while pending != {}
          invariant pending <= subjects[subj][pred].Keys
          invariant NoDup(r)
          invariant forall e :: e in r <==> e in entities && e.subj == subj && e.pred == pred && e.obj !in pending
          decreases pending
        {
          var k :| k in pending;
          NoDupConcat(r, [subjects[subj][pred][k]]);
          r := r + [subjects[subj][pred][k]];
          pending := pending - {k};
        }
      } else if HasObject(subj, pred, o.value) {
        UpperIdempotent(subj);
        UpperIdempotent(pred);
        r := [subjects[subj][pred][o.value]];
      }
    }

    /**
     * The facts stored under `subj` whose predicate is `pred` (any predicate
     * when `pred` is `None`) and whose object is `o`: the middle loop of
     * `match`.
     */
    method MatchPredicates(subj: string, pred: Option<string>, o: Option<string>) returns (r: seq<Entity>)
      requires Valid()
      requires subj in subjects
      requires pred.Some? ==> Upper(pred.value) == pred.value
      ensures NoDup(r)
      ensures forall e :: e in r <==> e in entities && e.subj == subj && Fits(e, None, pred, o)
      ensures pred.Some? && pred.value !in subjects[subj] ==> r == []
    {
      r := [];
      if pred.None? {
        var pending := subjects[subj].Keys;
        while pending != {}
          invariant pending <= subjects[subj].Keys
          invariant NoDup(r)
          invariant forall e :: e in r <==> e in entities && e.subj == subj && Fits(e, None, None, o) && e.pred !in pending
          decreases pending
        {
          var q :| q in pending;
          var found := MatchObjects(subj, q, o);
          NoDupConcat(r, found);
          r := r + found;
          pending := pending - {q};
        }
      } else if HasPredicate(subj, pred.value) {
        r := MatchObjects(subj, pred.value, o);
      }
    }

    /**
     * `match(s, p, o)`: every stored fact agreeing with the pattern, each
     * once; `None` matches any value.
     */
    method Match(s: Option<string>, p: Option<string>, o: Option<string>) returns (r: seq<Entity>)
      requires Valid()
      ensures NoDup(r)
      ensures forall e :: e in r <==> e in entities && Agrees(e, s, p, o)
      ensures s.Some? && !HasSubject(s.value) ==> r == []
      ensures s.Some? && p.Some? && !HasPredicate(s.value, p.value) ==> r == []
      ensures s.None? && p.None? && o.None? ==> multiset(r) == multiset(entities)
    {
      var subj := Normalise(s);
      var pred := Normalise(p);
      r := [];
      if subj.None? {
        var pending := subjects.Keys;
        while pending != {}
          invariant pending <= subjects.Keys
          invariant NoDup(r)
          invariant forall e :: e in r <==> e in entities && Fits(e, None, pred, o) && e.subj !in pending
          decreases pending
        {
          var k :| k in pending;
          var found := MatchPredicates(k, pred, o);
          NoDupConcat(r, found);
          r := r + found;
          pending := pending - {k};
        }
      } else if HasSubject(subj.value) {
        r := MatchPredicates(subj.value, pred, o);
      }

      if s.None? && p.None? && o.None? {
        SameElementsSameMultiset(r, entities);
      }
    }

    /**
     * `not_match(s, p, o)`: the stored facts, in order, less every fact whose
     * subject is the subject of some fact `match(s, p, o)` returns.
     */
    method NotMatch(s: Option<string>, p: Option<string>, o: Option<string>) returns (r: seq<Entity>)
      requires Valid()
      ensures r == NotMatching(entities, s, p, o)
    {
      var matched := Match(s, p, o);
      var toRemove := SameSubjectFacts(matched, entities);
      r := RemoveEach(entities, toRemove);
      SubjectsOfMatches(matched, entities, s, p, o);
      DropSetAgree(entities, set x | x in toRemove,
        set e | e in entities && e.subj in MatchedSubjects(entities, s, p, o));
    }

    /** `load` with no files configured: empties the store and reports 0 files. */
    method LoadNoFiles() returns (count: nat)
      modifies this
      ensures Valid()
      ensures subjects == map[] && entities == []
      ensures count == 0
    {
      subjects := map[];
      entities := [];
      count := 0;
    }
  }
}
