# RDF triple store (`RDFCollection`), modelled in Dafny

This project models `RDFCollection` from program-y's
`src/programy/rdf/collection.py`. It is an in-memory store of RDF facts
(subject, predicate, object) that keeps two structures in step:

- `_subjects`: a three-level dictionary. It maps an upper-cased subject to an
  upper-cased predicate, then to the exact object, then to the fact.
- `_entities`: a flat list of the same facts in insertion order.

The model has three modules:

- `Text` (`text.dfy`): ASCII upper-casing, `str.split` on one character, and
  `str.join`, with the round trip `Join(Split(s, c), c) == s`.
- `Facts` (`facts.dfy`): the fact value and `Option`. It also holds the two
  list operations the store uses on `_entities`: `list.remove`
  (`RemoveFirst`) and an order-preserving filter (`DropSet`). It proves that
  on a duplicate-free list, any number of `list.remove` calls, in any order,
  are one filter.
- `Rdf` (`collection.dfy`): the line splitter and the class `RDFCollection`.
  The class has the two fields `subjects: map<…>` and `entities: seq<Entity>`.
  - Its invariant `Valid()` says three things:
    - keys are upper-cased where they must be, and every fact sits under its
      own fields;
    - the list has no duplicates;
    - a fact is in the list exactly when it is reachable in the index.
  - `add_entity`, all three branches of `delete_entity` and the reset of
    `load` are methods that keep `Valid()`. Each states its exact new state.
  - `match` and `not_match` are methods with the source's loops. Dictionary
    iteration order is left arbitrary: each loop picks any key not yet
    visited.

`scenarios.dfy` (module `Scenarios`) plays out the behaviours of the store on
fresh collections:

- case asymmetry;
- duplicate suppression;
- predicate cascade;
- the fall-through of `delete_entity` on an absent predicate;
- the subject-level exclusion of `not_match`;
- the reset.

`delete_entity` tries its three branches in order (lines 104, 109 and 120
of `collection.py`): the one fact when predicate and object are given and the
fact is stored, else the predicate when it is given and present, else the
whole subject when it is present. So a call that names something missing
below a present subject does not leave the store as it was:

- When the predicate is absent but the subject is present, the call falls
  through to the subject branch and deletes every fact of the subject.
- When the object is absent but the predicate is present, it deletes the
  whole predicate.

`DeleteScope` names the branch taken. `Scenarios.AbsentPredicateDelete`
shows the first case.

## Model

| member | source | states |
|---|---|---|
| Text.Upper | src/programy/rdf/collection.py:75-78 | upper-casing keeps the length, maps each character to its upper-case form, and leaves no lower-case letter |
| Text.UpperIdempotent | src/programy/rdf/collection.py:75-78 | upper-casing an already upper-cased key changes nothing, so a stored key looks itself up |
| Text.Split | src/programy/rdf/collection.py:42-44 | `line.split(":")` has one more field than the line has separators, and no field contains the separator |
| Text.JoinSplit | src/programy/rdf/collection.py:42-44 | joining the fields of a split with the separator gives back the line |
| Text.Join | src/programy/rdf/collection.py:33 | `":".join(fields)` puts the separator between consecutive fields: the first field comes first, followed by the separator when another field follows; `Text.JoinSplit` and `Rdf.SplitLine` rely on it for the round trip |
| Text.SplitJoin | src/programy/rdf/collection.py:33 | splitting a join of fields that hold no separator gives back the fields, the inverse of `Text.JoinSplit` |
| Rdf.SplitLine | src/programy/rdf/collection.py:30-34 | three fields when the line has at least two separators, otherwise the plain split; every field but the last is free of `:`, and joining the fields gives back the line, so the object keeps any extra `:` |
| Rdf.RDFCollection.constructor | src/programy/rdf/collection.py:25-28 | a new collection is empty and satisfies the store invariant |
| Rdf.RDFCollection.HasSubject | src/programy/rdf/collection.py:50-51 | in a valid store, the subject of every stored fact is found |
| Rdf.RDFCollection.HasPredicate | src/programy/rdf/collection.py:56-59 | false whenever the subject is not found; in a valid store, the predicate of every stored fact is found under its subject |
| Rdf.RDFCollection.HasObject | src/programy/rdf/collection.py:64-68 | in a valid store, true exactly when the fact with upper-cased subject and predicate and the exact object is in the list |
| Rdf.RDFCollection.CaseInsensitiveLookups | src/programy/rdf/collection.py:50-68 | `has_subject`, `has_predicate` and `has_object` give the same answers when subject and predicate are upper-cased first (the object keeps its case: see `HasObject` and `Scenarios.CaseAsymmetry`) |
| Rdf.RDFCollection.SameUpToCase | src/programy/rdf/collection.py:50-68 | two spellings of subject and predicate that differ only in the case of letters get the same answers from all three lookups |
| Text.UpperAgreesOnCase | src/programy/rdf/collection.py:50-51 | two strings that differ only in the case of letters upper-case to the same key |
| Rdf.RDFCollection.StoredFactsFound | src/programy/rdf/collection.py:50-68 | every stored fact is found by all three lookups under any casing of its subject and predicate |
| Rdf.RDFCollection.Subjects | src/programy/rdf/collection.py:53-54 | the keys are exactly the upper-case strings that pass `has_subject`, including a subject whose facts have all been deleted; every stored fact's subject is among them |
| Rdf.RDFCollection.Predicates | src/programy/rdf/collection.py:61-62 | for a present subject, the keys are exactly the upper-case strings that pass `has_predicate`, including a predicate whose facts have all been deleted; every stored predicate of the subject is among them |
| Rdf.RDFCollection.Objects | src/programy/rdf/collection.py:70-71 | for a present subject and predicate, the object keys are exactly the objects of the stored facts with that subject and predicate |
| Rdf.RDFCollection.AddEntity | src/programy/rdf/collection.py:73-95 | keeps the invariant; afterwards `has_object(s, p, o)` holds; the index becomes the old one with the fact inserted; the list grows by the normalised fact when it was new and is unchanged (index included) when it was a duplicate |
| Rdf.InsertedInSteps | src/programy/rdf/collection.py:80-92 | creating the subject level if missing, then the predicate level if missing, then storing, is one insertion of the fact |
| Rdf.InsertedKeepsIndex | src/programy/rdf/collection.py:80-92 | inserting a normalised fact keeps the index well formed, and the facts reachable afterwards are the old ones plus the new one |
| Rdf.InsertKeepsStore | src/programy/rdf/collection.py:88-92 | inserting a new fact into both structures keeps the list duplicate-free and the two structures consistent |
| Rdf.InsertedExisting | src/programy/rdf/collection.py:88-95 | inserting a fact that is already stored leaves the index unchanged |
| Rdf.RDFCollection.DeleteScope | src/programy/rdf/collection.py:104-135 | names the branch `delete_entity` takes; it is "no branch" exactly when the subject is absent; the triple branch needs the fact present and the predicate branch needs the predicate present |
| Rdf.RDFCollection.DeleteEntity | src/programy/rdf/collection.py:97-135 | keeps the invariant; the list loses exactly the facts of the branch taken (the one triple, every fact of the predicate, or every fact of the subject), in order; the index loses that object key, that predicate key or that subject key; with the subject absent nothing changes |
| Rdf.RDFCollection.DoomedByScope | src/programy/rdf/collection.py:104-135 | the facts `delete_entity` removes are the one fact in the triple branch, the subject's facts under the predicate in the predicate branch, all facts of the subject in the subject branch, and none otherwise |
| Rdf.RDFCollection.RemoveFact | src/programy/rdf/collection.py:104-107 | keeps the invariant; the list loses exactly that fact and the index loses exactly that object key |
| Rdf.RDFCollection.RemovePredicate | src/programy/rdf/collection.py:109-118 | keeps the invariant; the list loses exactly the subject's facts under the predicate and the index loses exactly that predicate key |
| Rdf.RDFCollection.DeleteObjectKeys | src/programy/rdf/collection.py:114-116 | deleting the listed object keys one by one removes exactly those keys from that predicate's map and leaves the list as it was |
| Rdf.RemoveOneObject | src/programy/rdf/collection.py:111-113 | inside the object loop, the fact under a key not yet visited is still in the list, and `list.remove` of it drops exactly that fact |
| Rdf.ObjectFactsAll | src/programy/rdf/collection.py:111-113 | the facts under all object keys of a predicate are exactly the listed facts of the subject with that predicate |
| Rdf.RDFCollection.ClearPredicate | src/programy/rdf/collection.py:110-116 | removing each object's fact from the list and then each object key leaves the predicate with an empty map and drops exactly that predicate's facts from the list |
| Rdf.RDFCollection.ClearSubject | src/programy/rdf/collection.py:121-135 | clearing each predicate, removing the predicate keys and then the subject key removes the subject from the index and exactly its facts from the list |
| Rdf.RemoveObjectKeepsStore | src/programy/rdf/collection.py:104-107 | removing one fact from the list and its object key from the index keeps both structures consistent and duplicate-free |
| Rdf.ClearPredicateKeepsStore | src/programy/rdf/collection.py:110-116 | emptying one predicate's objects and dropping its facts keeps both structures consistent |
| Rdf.RemoveEmptyPredicateKeepsStore | src/programy/rdf/collection.py:117-118 | deleting a predicate key whose map is empty changes no stored fact |
| Rdf.RemoveSubjectKeepsStore | src/programy/rdf/collection.py:133-135 | deleting a subject key together with its facts keeps both structures consistent |
| Facts.RemoveFirst | src/programy/rdf/collection.py:106 | `list.remove(x)` on a list holding `x` shortens it by one and removes exactly one copy of `x` |
| Facts.RemoveFirstIsDrop | src/programy/rdf/collection.py:106 | on a duplicate-free list, `list.remove(x)` equals filtering `x` out |
| Facts.RemoveFirstOfDrop | src/programy/rdf/collection.py:111-113 | removing one more present fact after a filter is filtering it too, so a loop of removals in any order is one filter |
| Facts.DropSet | src/programy/rdf/collection.py:202-204 | the filter keeps exactly the elements outside the dropped set, never lengthens the list, and keeps it duplicate-free |
| Rdf.RDFCollection.MatchObjects | src/programy/rdf/collection.py:159-165 | for a present subject and predicate, returns without duplicates exactly the stored facts under them whose object fits (any object when none is given) |
| Rdf.RDFCollection.MatchPredicates | src/programy/rdf/collection.py:168-185 | for a present subject, returns without duplicates exactly its stored facts fitting the predicate and object; an absent predicate gives nothing |
| Rdf.RDFCollection.Match | src/programy/rdf/collection.py:137-187 | returns each stored fact at most once, and a fact is returned exactly when it agrees with every given argument (subject and predicate up to case, object exactly); an unknown subject or predicate gives an empty result; with no arguments the result is a permutation of the stored list |
| Rdf.SameSubjectFacts | src/programy/rdf/collection.py:196-200 | the collected facts are exactly the facts of the list whose subject is the subject of some match |
| Rdf.RemoveEach | src/programy/rdf/collection.py:202-204 | removing each collected fact still present from a duplicate-free copy equals filtering out all the collected facts, in order |
| Rdf.SubjectsOfMatches | src/programy/rdf/collection.py:194-200 | the subjects of a sound and complete list of matches are the subjects of the stored facts agreeing with the pattern |
| Rdf.RDFCollection.NotMatch | src/programy/rdf/collection.py:189-207 | returns the stored list, in order and without changing the store, less every fact whose subject is the subject of some fact `match` returns |
| Rdf.NotMatchingMembers | src/programy/rdf/collection.py:189-207 | a fact survives `not_match` exactly when it is stored and no fact agreeing with the pattern has its subject: the exclusion is by subject, not by triple |
| Rdf.RDFCollection.LoadNoFiles | src/programy/rdf/collection.py:216-218 | with no files configured, both structures are emptied, the invariant holds and the count is 0 |
| Scenarios.CaseAsymmetry | src/programy/rdf/collection.py:64-78 | after adding `("a", "b", "c")`, the fact is found as `("A", "B", "c")` but not as `("a", "b", "C")` |
| Scenarios.DuplicateAdd | src/programy/rdf/collection.py:86-95 | adding the same fact twice, in two casings, stores it once |
| Scenarios.CascadeDelete | src/programy/rdf/collection.py:109-118 | deleting a predicate with two objects removes both facts and the predicate key but keeps the subject key |
| Scenarios.AbsentPredicateDelete | src/programy/rdf/collection.py:120-135 | deleting with a predicate the subject does not have removes the subject and all its facts |
| Scenarios.SubjectExclusion | src/programy/rdf/collection.py:189-207 | with facts `("A", "P1", "X")` and `("A", "P2", "Y")`, `not_match(object="X")` excludes both |
| Scenarios.SharedSubjectExcluded | src/programy/rdf/collection.py:189-207 | for any two facts of one subject, `not_match` on the first fact's object keeps neither |
| Scenarios.Reset | src/programy/rdf/collection.py:216-218 | `load` without files empties a non-empty store and returns 0 |

## Left out

- `RDFLoader` and the branch of `load` with files: file discovery and reading go through `FileFinder` and `load_from_filename`, which are I/O in classes that are not part of this model.
- `process_splits`: it is reached only from file loading; it calls `add_entity` on the first three fields.
- `get_split_pattern`: a constant nothing in the core uses. `get_split_char` is the constant `Separator`.
- Logging calls: they have no effect on the store.
- `BaseCollection` and `RDFEntity` are not part of this model. The fact is a value triple compared field by field.
- Text.Upper: upper-cases ASCII letters only, where Python's `str.upper` covers all of Unicode.
- The subject of `add_entity` and `delete_entity` is a string. The source raises `AttributeError` for a `None` subject, because `has_subject` calls `.upper()` on it.
- The predicate of `add_entity` is a string. For a `None` predicate the source raises `AttributeError` in `has_predicate` (line 58, reached from line 84). By then a new subject has already been given an empty level (line 82); that store change before the error is not modelled. The predicate of `delete_entity` is an `Option`, and `None` (the default) selects the subject branch, as in the source.
- The object of `add_entity` is a string. A `None` object, which the source would store under a `None` key, is not modelled.
- Rdf.RDFCollection.Subjects: returns the key set at the time of the call. The source returns a live `dict_keys` view in insertion order; neither that order nor the view's tracking of later `add_entity` and `delete_entity` changes is modelled.
- Rdf.RDFCollection.Predicates: returns the key set; the list order is not modelled. The subject must be present, because the source raises `KeyError` otherwise.
- Rdf.RDFCollection.Objects: returns the key set; the list order is not modelled. The subject and predicate must be present, because the source raises `KeyError` otherwise.
- Rdf.RDFCollection.Match: states which facts are returned, each once, but not their order. Dictionary iteration order (insertion order in Python) is left arbitrary.
