/**
 * Concrete requests against concrete collections, each with the exact
 * response the handler gives.
 */
module LoginScenarios {
  import opened Wrappers
  import opened JsString
  import opened Firestore
  import opened LoginParent

  const Xy9: StudentDoc :=
    StudentDoc("doc42", Some("XY9"), Some("0171234567"), Some("0179999999"))

  function Post(sid: string, cn: string): Request {
    Request("POST", Some(Body(Text(sid), Text(cn))))
  }

  /** An upper-case ID without surrounding whitespace is its own key. */
  lemma UpperIdIsItsKey()
    ensures Key("AB123") == "AB123"
  {
    KeyOfNormal("AB123");
  }

  /** Lower case gives the same key as upper case. */
  lemma LowerIdSameKey()
    ensures Key("ab123") == Key("AB123")
  {
    assert EqualIgnoringCase("ab123", "AB123");
    KeyIgnoresCase("ab123", "AB123");
  }

  /** Surrounding spaces give the same key as none. */
  lemma PaddedIdSameKey()
    ensures Key("  ab123  ") == Key("ab123")
  {
    assert "  " + "ab123" + "  " == "  ab123  ";
    KeyIgnoresPadding("  ", "ab123", "  ");
  }

  /** A differently cased ID and a guardian contact with surrounding
      whitespace log in. */
  lemma GuardianContactLogsIn()
    ensures Handle(Post("xy9", " 0179999999 "), Students([Xy9])) == Response(200, Accepted("doc42"))
  {
    TrimBare("xy9");
    TrimBare("0179999999");
    TrimIgnoresPadding(" ", "0179999999", " ");
    assert " " + "0179999999" + " " == " 0179999999 ";
    assert Key("xy9") == "XY9";
    assert IsFirstMatch([Xy9], "XY9", 0);
    FirstMatchDecides(Post("xy9", " 0179999999 "), "xy9", " 0179999999 ", [Xy9], 0);
  }

  lemma WrongNumberIsMismatch()
    ensures Handle(Post("XY9", "0000000000"), Students([Xy9])) == ContactMismatch
  {
    KeyOfNormal("XY9");
    TrimBare("0000000000");
    assert IsFirstMatch([Xy9], "XY9", 0);
    FirstMatchDecides(Post("XY9", "0000000000"), "XY9", "0000000000", [Xy9], 0);
  }

  lemma UnknownIdIsNotFound()
    ensures Handle(Post("ZZZ", "123"), Students([Xy9])) == StudentNotFound
  {
    KeyOfNormal("ZZZ");
    StudentNotFoundIff(Post("ZZZ", "123"), Students([Xy9]));
  }

  /** Matching is not by prefix: a stored "AB1234" is not found for "AB123". */
  lemma PrefixIsNotAMatch()
    ensures Handle(Post("AB123", "1"), Students([StudentDoc("d", Some("AB1234"), Some("1"), None)]))
            == StudentNotFound
  {
    KeyOfNormal("AB123");
    StudentNotFoundIff(Post("AB123", "1"), Students([StudentDoc("d", Some("AB1234"), Some("1"), None)]));
  }

  /** A stored contact with a trailing space is never matched by the bare
      number. */
  lemma StoredTrailingSpaceIsMismatch()
    ensures Handle(Post("A1", "555-1234"), Students([StudentDoc("d", Some("A1"), Some("555-1234 "), None)]))
            == ContactMismatch
  {
    var d := StudentDoc("d", Some("A1"), Some("555-1234 "), None);
    KeyOfNormal("A1");
    TrimBare("555-1234");
    assert IsFirstMatch([d], "A1", 0);
    FirstMatchDecides(Post("A1", "555-1234"), "A1", "555-1234", [d], 0);
  }

  /** A whitespace-only contact number passes validation, is trimmed to "",
      and then logs in to a record whose stored contact is "". */
  lemma BlankContactMatchesEmptyStored()
    ensures Handle(Post("A1", "   "), Students([StudentDoc("d", Some("A1"), Some(""), None)]))
            == Response(200, Accepted("d"))
  {
    var d := StudentDoc("d", Some("A1"), Some(""), None);
    KeyOfNormal("A1");
    WhitespaceOnlyPassesValidation(Post("A1", "   "), "A1", "   ", Students([d]));
    assert IsFirstMatch([d], "A1", 0);
    FirstMatchDecides(Post("A1", "   "), "A1", "   ", [d], 0);
  }

  /** A truthy non-string contact number is not trimmed while no record
      matches, so the answer is "not found"... */
  lemma NonStringContactUnknownId()
    ensures Handle(Request("POST", Some(Body(Text("ZZZ"), NonText(true)))), Students([Xy9]))
            == StudentNotFound
  {
    KeyOfNormal("ZZZ");
    StudentNotFoundIff(Request("POST", Some(Body(Text("ZZZ"), NonText(true)))), Students([Xy9]));
  }

  /** ...but once a record has matched, trimming it throws and the answer
      is the 500. */
  lemma NonStringContactKnownId()
    ensures Handle(Request("POST", Some(Body(Text("XY9"), NonText(true)))), Students([Xy9]))
            == InternalError
  {
    KeyOfNormal("XY9");
    InternalErrorIff(Request("POST", Some(Body(Text("XY9"), NonText(true)))), Students([Xy9]));
  }
}
