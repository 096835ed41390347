/**
 * The parent-login handler: one POST request carrying a student ID and a
 * contact number, one query of the `students` collection, one of six fixed
 * responses.
 *
 * The handler is a function of the request and of the database it queries.
 * Writing the response and logging the error are left to the caller.
 */
module LoginParent {
  import opened Wrappers
  import opened JsString
  import opened Firestore

  /** A body field as JavaScript sees it after destructuring: a string, or
      some other value (undefined, null, a number, an object, ...) of which
      only its truthiness matters. */
  datatype Field = Text(s: string) | NonText(truthy: bool)

  /** The fields the handler destructures from the parsed body. */
  datatype Body = Body(studentId: Field, contactNumber: Field)

  /** `verb` is the HTTP method. `body` is `None` when the parsed body is
      `null` or `undefined`; a body that is some other non-object value
      gives fields that are `NonText(false)`. */
  datatype Request = Request(verb: string, body: Option<Body>)

  /** `{success: true, docId}` or `{success: false, message}`. */
  datatype Reply = Accepted(docId: string) | Rejected(message: string)

  datatype Response = Response(status: int, reply: Reply)

  const MethodNotAllowed: Response :=
    Response(405, Rejected("Method Not Allowed"))
  const FieldsRequired: Response :=
    Response(400, Rejected("Student ID and Contact Number are required."))
  const StudentNotFound: Response :=
    Response(200, Rejected("Student ID not found."))
  const ContactMismatch: Response :=
    Response(200, Rejected("Contact number does not match registered details."))
  const InternalError: Response :=
    Response(500, Rejected("An internal server error occurred. Please try again later."))

  /** JavaScript falsiness, for the values a field can hold. */
  predicate Falsy(f: Field) {
    match f
    case Text(s) => s == ""
    case NonText(truthy) => !truthy
  }

  /** The stored primary or guardian contact is exactly `supplied`. */
  predicate ContactMatches(d: StudentDoc, supplied: string) {
    d.contact == Some(supplied) || d.guardianContact == Some(supplied)
  }

  /** A POST whose two fields are the non-empty strings `sid` and `cn`. */
  predicate Credentials(req: Request, sid: string, cn: string) {
    && req.verb == "POST"
    && req.body == Some(Body(Text(sid), Text(cn)))
    && sid != "" && cn != ""
  }

  /** The handler. Calling `trim` on a field that is a truthy non-string
      throws, as does destructuring a null body and any failure of the
      query; all of these end in the catch-all 500 response. */
  function Handle(req: Request, db: Database): Response {
    if req.verb != "POST" then MethodNotAllowed
    else match req.body
      case None => InternalError
      case Some(body) =>
        if Falsy(body.studentId) || Falsy(body.contactNumber) then FieldsRequired
        else match body.studentId
          case NonText(_) => InternalError
          case Text(sid) => Respond(Query(db, Key(sid)), body.contactNumber)
  }

  /** What the handler does once the query has run: the first document
      returned decides, by its two stored contacts. */
  function Respond(result: QueryResult, contactNumber: Field): Response {
    match result
    case QueryFailed(_) => InternalError
    case Snapshot(docs) =>
      if docs == [] then StudentNotFound
      else match contactNumber
        case NonText(_) => InternalError
        case Text(cn) =>
          if ContactMatches(docs[0], Trim(cn)) then Response(200, Accepted(docs[0].id))
          else ContactMismatch
  }

  /** Every response is one of the five fixed failures, or a success whose
      identifier is that of a stored document. */
  lemma SixOutcomes(req: Request, db: Database)
    ensures var r := Handle(req, db);
      || r in {MethodNotAllowed, FieldsRequired, StudentNotFound, ContactMismatch, InternalError}
      || (&& r.status == 200 && r.reply.Accepted? && db.Students?
          && exists d :: d in db.docs && d.id == r.reply.docId)
  {
    if Handle(req, db).reply.Accepted? {
      var sid := req.body.value.studentId.s;
      WhereMembers(db.docs, Key(sid));
      assert Where(db.docs, Key(sid))[0] in Where(db.docs, Key(sid));
    }
  }

  // ---------------------------------------------------------------------
  // Method and field checks

  /** Only POST gets past the first check; anything else is a 405 whatever
      the body and the database hold. */
  lemma MethodNotAllowedIff(req: Request, db: Database)
    ensures Handle(req, db).status == 405 <==> req.verb != "POST"
    ensures req.verb != "POST" ==> Handle(req, db) == MethodNotAllowed
  {
  }

  /** A 400 answers exactly the POSTs whose body lacks one of the two fields
      (a falsy value counts as lacking). */
  lemma FieldsRequiredIff(req: Request, db: Database)
    ensures Handle(req, db).status == 400 <==>
      && req.verb == "POST" && req.body.Some?
      && (Falsy(req.body.value.studentId) || Falsy(req.body.value.contactNumber))
    ensures Handle(req, db).status == 400 ==> Handle(req, db) == FieldsRequired
  {
  }

  /** Validation looks at the raw values: a whitespace-only student ID or
      contact number passes it and is trimmed to the empty string only
      afterwards, so the lookup is for the key "". */
  lemma WhitespaceOnlyPassesValidation(req: Request, sid: string, cn: string, db: Database)
    requires Credentials(req, sid, cn)
    ensures Handle(req, db) != FieldsRequired
    ensures AllWhitespace(sid) ==> Key(sid) == ""
    ensures AllWhitespace(cn) ==> Trim(cn) == ""
  {
    if AllWhitespace(sid) {
      TrimPadded(sid, [], []);
      assert sid + [] + [] == sid;
    }
    if AllWhitespace(cn) {
      TrimPadded(cn, [], []);
      assert cn + [] + [] == cn;
    }
  }

  // ---------------------------------------------------------------------
  // Lookup

  /** The student ID reaches the database only through its key. */
  lemma SameKeySameResponse(req1: Request, req2: Request, sid1: string, sid2: string, cn: string, db: Database)
    requires Credentials(req1, sid1, cn) && Credentials(req2, sid2, cn)
    requires Key(sid1) == Key(sid2)
    ensures Handle(req1, db) == Handle(req2, db)
  {
  }

  /** IDs that differ only in ASCII case and surrounding whitespace get the
      same response. */
  lemma NormalisedIdsAgree(req1: Request, req2: Request, p: string, a: string, q: string, b: string, cn: string, db: Database)
    requires AllWhitespace(p) && AllWhitespace(q) && EqualIgnoringCase(a, b)
    requires Credentials(req1, p + a + q, cn) && Credentials(req2, b, cn)
    ensures Handle(req1, db) == Handle(req2, db)
  {
    KeyIgnoresPadding(p, a, q);
    KeyIgnoresCase(a, b);
    SameKeySameResponse(req1, req2, p + a + q, b, cn, db);
  }

  /** Lookup is by exact equality with the key: removing every document
      whose `student_id` is not the key changes nothing. */
  lemma OnlyExactMatchesMatter(req: Request, sid: string, cn: string, docs: seq<StudentDoc>)
    requires Credentials(req, sid, cn)
    ensures Handle(req, Students(docs)) == Handle(req, Students(Where(docs, Key(sid))))
  {
    WhereIdempotent(docs, Key(sid));
  }

  /** "Student ID not found." answers exactly the POSTs with both fields
      present, a string student ID, a reachable database and no document
      whose `student_id` is the key. The contact number is not examined on
      this path, so a truthy non-string there still gets this answer. */
  lemma StudentNotFoundIff(req: Request, db: Database)
    ensures Handle(req, db) == StudentNotFound <==>
      && req.verb == "POST" && req.body.Some?
      && !Falsy(req.body.value.studentId) && !Falsy(req.body.value.contactNumber)
      && req.body.value.studentId.Text?
      && db.Students?
      && forall d :: d in db.docs ==> !Matches(d, Key(req.body.value.studentId.s))
  {
    if req.verb == "POST" && req.body.Some? && req.body.value.studentId.Text? && db.Students? {
      WhereEmptyIff(db.docs, Key(req.body.value.studentId.s));
    }
  }

  // ---------------------------------------------------------------------
  // Contact check

  /** With a valid request, the first matching document alone decides:
      success with its identifier when the trimmed contact number equals its
      stored `contact` or `guardianContact`, the mismatch message otherwise. */
  lemma FirstMatchDecides(req: Request, sid: string, cn: string, docs: seq<StudentDoc>, i: int)
    requires Credentials(req, sid, cn)
    requires IsFirstMatch(docs, Key(sid), i)
    ensures Handle(req, Students(docs)) ==
      if ContactMatches(docs[i], Trim(cn)) then Response(200, Accepted(docs[i].id))
      else ContactMismatch
  {
    WhereHeadIsFirstMatch(docs, Key(sid), i);
  }

  /** Success happens only for a valid request against a reachable
      database, and its identifier is that of the first matching document,
      whose stored contact or guardian contact equals the trimmed number. */
  lemma AcceptedOnlyForFirstMatch(req: Request, db: Database)
    requires Handle(req, db).reply.Accepted?
    ensures req.body.Some? && req.body.value.studentId.Text? && req.body.value.contactNumber.Text?
    ensures var sid, cn := req.body.value.studentId.s, req.body.value.contactNumber.s;
      && Credentials(req, sid, cn)
      && Handle(req, db).status == 200
      && db.Students?
      && exists i :: IsFirstMatch(db.docs, Key(sid), i)
                     && ContactMatches(db.docs[i], Trim(cn))
                     && db.docs[i].id == Handle(req, db).reply.docId
  {
    var sid, cn := req.body.value.studentId.s, req.body.value.contactNumber.s;
    var i := WhereHeadHasIndex(db.docs, Key(sid));
    assert IsFirstMatch(db.docs, Key(sid), i);
  }

  /** The mismatch message answers exactly the valid requests whose first
      matching document has neither contact equal to the trimmed number. */
  lemma ContactMismatchOnlyForFirstMatch(req: Request, db: Database)
    requires Handle(req, db) == ContactMismatch
    ensures req.body.Some? && req.body.value.studentId.Text? && req.body.value.contactNumber.Text?
    ensures var sid, cn := req.body.value.studentId.s, req.body.value.contactNumber.s;
      && Credentials(req, sid, cn)
      && db.Students?
      && exists i :: IsFirstMatch(db.docs, Key(sid), i) && !ContactMatches(db.docs[i], Trim(cn))
  {
    var sid := req.body.value.studentId.s;
    var i := WhereHeadHasIndex(db.docs, Key(sid));
    assert IsFirstMatch(db.docs, Key(sid), i);
  }

  /** Documents after a match never affect the response. */
  lemma LaterDocumentsIgnored(req: Request, sid: string, docs: seq<StudentDoc>, i: int, later: seq<StudentDoc>)
    requires req.body.Some? && req.body.value.studentId == Text(sid)
    requires 0 <= i < |docs| && Matches(docs[i], Key(sid))
    ensures Handle(req, Students(docs + later)) == Handle(req, Students(docs))
  {
    var key := Key(sid);
    var found, all := Where(docs, key), Where(docs + later, key);
    WhereMembers(docs, key);
    assert docs[i] in found;
    WhereAppend(docs, later, key);
    RespondSeesOnlyTheFirst(found, all, req.body.value.contactNumber);
  }

  /** Once the query has run, only its first document matters. */
  lemma RespondSeesOnlyTheFirst(a: seq<StudentDoc>, b: seq<StudentDoc>, contactNumber: Field)
    requires a != [] && b != [] && a[0] == b[0]
    ensures Respond(Snapshot(a), contactNumber) == Respond(Snapshot(b), contactNumber)
  {
  }

  /** The stored values are compared as stored: one with whitespace at
      either end can never be matched, whatever number is supplied. */
  lemma PaddedStoredContactNeverMatches(d: StudentDoc, stored: string, cn: string)
    requires d.contact == Some(stored) && !Bare(stored)
    ensures d.contact != Some(Trim(cn))
  {
    var _, _ := TrimSplits(cn);
  }

  // ---------------------------------------------------------------------
  // Internal errors

  /** A failed query yields the generic 500 for every valid request. */
  lemma QueryFailureIsGeneric(req: Request, sid: string, cn: string, error: string)
    requires Credentials(req, sid, cn)
    ensures Handle(req, Unreachable(error)) == InternalError
  {
  }

  /** The response carries nothing of the error that caused it. */
  lemma ErrorDetailHidden(req: Request, e1: string, e2: string)
    ensures Handle(req, Unreachable(e1)) == Handle(req, Unreachable(e2))
  {
  }

  /** A 500 is the response exactly when something throws inside the
      `try`: a null body, `trim` on a truthy non-string student ID, a failed
      query, or `trim` on a truthy non-string contact number once a document
      has matched. */
  lemma InternalErrorIff(req: Request, db: Database)
    ensures Handle(req, db).status == 500 <==>
      && req.verb == "POST"
      && (|| req.body.None?
          || (&& !Falsy(req.body.value.studentId) && !Falsy(req.body.value.contactNumber)
              && (|| req.body.value.studentId.NonText?
                  || db.Unreachable?
                  || (&& req.body.value.contactNumber.NonText?
                      && exists d :: d in db.docs && Matches(d, Key(req.body.value.studentId.s))))))
    ensures Handle(req, db).status == 500 ==> Handle(req, db) == InternalError
  {
    if req.verb == "POST" && req.body.Some? && req.body.value.studentId.Text? && db.Students? {
      WhereEmptyIff(db.docs, Key(req.body.value.studentId.s));
    }
  }
}
