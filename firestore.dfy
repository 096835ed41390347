/**
 * The part of the document database the handler relies on: the `students`
 * collection and one equality-filtered query on its `student_id` field.
 *
 * The collection is a sequence in the order the database returns documents;
 * a query keeps that order. Any exception raised while reaching the database
 * or running the query is the `Unreachable` case.
 */
module Firestore {
  import opened Wrappers

  /** One document of `students`: its document identifier and the three
      fields the handler reads. A field that is absent, or holds something
      that is not a string, is `None`: it is never strictly equal to a string. */
  datatype StudentDoc = StudentDoc(
    id: string,
    studentId: Option<string>,
    contact: Option<string>,
    guardianContact: Option<string>)

  datatype Database =
    | Unreachable(error: string)
    | Students(docs: seq<StudentDoc>)

  datatype QueryResult =
    | QueryFailed(error: string)
    | Snapshot(docs: seq<StudentDoc>)

  /** `where("student_id", "==", key)` selects a document by exact equality. */
  predicate Matches(d: StudentDoc, key: string) {
    d.studentId == Some(key)
  }

  /** Index `i` holds the first document of `docs` that matches `key`. */
  predicate IsFirstMatch(docs: seq<StudentDoc>, key: string, i: int) {
    && 0 <= i < |docs|
    && Matches(docs[i], key)
    && forall j :: 0 <= j < i ==> !Matches(docs[j], key)
  }

  /** The matching documents of `docs`, in their order. */
  function Where(docs: seq<StudentDoc>, key: string): seq<StudentDoc> {
    if docs == [] then []
    else (if Matches(docs[0], key) then [docs[0]] else []) + Where(docs[1..], key)
  }

  /** `collection("students").where("student_id", "==", key).get()`. */
  function Query(db: Database, key: string): QueryResult {
    match db
    case Unreachable(e) => QueryFailed(e)
    case Students(docs) => Snapshot(Where(docs, key))
  }

  /** The query returns exactly the documents that match. */
  lemma {:induction false} WhereMembers(docs: seq<StudentDoc>, key: string)
    ensures |Where(docs, key)| <= |docs|
    ensures forall d :: d in Where(docs, key) <==> d in docs && Matches(d, key)
  {
    if docs != [] {
      WhereMembers(docs[1..], key);
      assert forall d :: d in docs <==> d == docs[0] || d in docs[1..];
    }
  }

  /** The query comes back empty exactly when no document matches. */
  lemma WhereEmptyIff(docs: seq<StudentDoc>, key: string)
    ensures Where(docs, key) == [] <==> forall d :: d in docs ==> !Matches(d, key)
  {
    WhereMembers(docs, key);
    if Where(docs, key) != [] {
      assert Where(docs, key)[0] in Where(docs, key);
    }
  }

  /** Filtering distributes over concatenation, so it keeps the order of the
      collection. */
  lemma {:induction false} WhereAppend(a: seq<StudentDoc>, b: seq<StudentDoc>, key: string)
    ensures Where(a + b, key) == Where(a, key) + Where(b, key)
  {
    if a == [] {
      assert a + b == b;
    } else {
      assert (a + b)[0] == a[0];
      assert (a + b)[1..] == a[1..] + b;
      WhereAppend(a[1..], b, key);
    }
  }

  /** The first document a query returns is the first match in the
      collection. */
  lemma {:induction false} WhereHeadIsFirstMatch(docs: seq<StudentDoc>, key: string, i: int)
    requires IsFirstMatch(docs, key, i)
    ensures Where(docs, key) != [] && Where(docs, key)[0] == docs[i]
  {
    if i > 0 {
      assert !Matches(docs[0], key);
      assert IsFirstMatch(docs[1..], key, i - 1);
      WhereHeadIsFirstMatch(docs[1..], key, i - 1);
    }
  }

  /** If the query returns anything, its first document is a first match. */
  lemma {:induction false} WhereHeadHasIndex(docs: seq<StudentDoc>, key: string) returns (i: int)
    requires Where(docs, key) != []
    ensures IsFirstMatch(docs, key, i) && Where(docs, key)[0] == docs[i]
  {
    if Matches(docs[0], key) {
      i := 0;
    } else {
      var j := WhereHeadHasIndex(docs[1..], key);
      i := j + 1;
    }
  }

  /** Running the query on its own result changes nothing. */
  lemma {:induction false} WhereIdempotent(docs: seq<StudentDoc>, key: string)
    ensures Where(Where(docs, key), key) == Where(docs, key)
  {
    if docs != [] {
      var head := if Matches(docs[0], key) then [docs[0]] else [];
      WhereAppend(head, Where(docs[1..], key), key);
      WhereIdempotent(docs[1..], key);
      assert Where(head, key) == head by {
        if head != [] { assert head[1..] == []; }
      }
    }
  }
}
