/** Lexical check applied to mets:file/@ID and mets:fileGrp/@USE: an NCName-like
    token, as used for xsd:ID values (XML Schema Part 2, section 3.3.8), restricted
    to ASCII: a letter or '_' first, then letters, digits, '_', '-' and '.'. */
module Syntax {

  predicate IsLetter(c: char) { 'a' <= c <= 'z' || 'A' <= c <= 'Z' }

  predicate IsDigit(c: char) { '0' <= c <= '9' }

  predicate IsNameStart(c: char) { IsLetter(c) || c == '_' }

  predicate IsNameChar(c: char) { IsNameStart(c) || IsDigit(c) || c == '-' || c == '.' }

  /** True iff every character of `s` is a name character. */
  predicate AllNameChars(s: string)
  {
    forall i :: 0 <= i < |s| ==> IsNameChar(s[i])
  }

  /** Non-empty, no leading digit, and none of the punctuation and blanks the
      rejected examples carry. */
  predicate IsToken(s: string)
    ensures IsToken(s) ==> |s| > 0 && !IsDigit(s[0])
    ensures IsToken(s) ==> forall i :: 0 <= i < |s| ==> s[i] !in ":!, /"
  {
    |s| > 0 && IsNameStart(s[0]) && AllNameChars(s[1..])
  }

  /** A valid token never contains the characters the filter mini-language gives a
      meaning to: ',' (OR-list) and '/' (the '//' regex prefix). */
  lemma TokenHasNoFilterSyntax(s: string)
    requires IsToken(s)
    ensures ',' !in s && '/' !in s
  {
    forall i | 0 <= i < |s| ensures s[i] != ',' && s[i] != '/' {
      if i > 0 { assert s[i] == s[1..][i - 1]; }
    }
  }

  /** A token, stated without the slice. */
  lemma TokenByChars(s: string)
    requires |s| > 0 && IsNameStart(s[0])
    requires forall i :: 1 <= i < |s| ==> IsNameChar(s[i])
    ensures IsToken(s)
  {
    forall i | 0 <= i < |s[1..]| ensures IsNameChar(s[1..][i]) {
      assert s[1..][i] == s[i + 1];
    }
  }

  /** The file IDs used in the tests are accepted. */
  lemma AcceptedIds()
    ensures IsToken("foo123") && IsToken("foo1232") && IsToken("foo3")
    ensures IsToken("best-id-ever") && IsToken("FILE_0001_IMAGE")
  {
    TokenByChars("foo123");
    TokenByChars("foo1232");
    TokenByChars("foo3");
    TokenByChars("best-id-ever");
    TokenByChars("FILE_0001_IMAGE");
  }

  /** The identifiers and group names used in the tests are accepted. */
  lemma AcceptedExamples()
    ensures IsToken("foo123") && IsToken("foo1232") && IsToken("foo3")
    ensures IsToken("best-id-ever") && IsToken("FILE_0001_IMAGE")
    ensures IsToken("OUTPUT") && IsToken("OCR-D-IMG") && IsToken("TEST")
  {
    AcceptedIds();
    TokenByChars("OUTPUT");
    TokenByChars("OCR-D-IMG");
    TokenByChars("TEST");
  }

  /** The malformed ID and group name from the tests are rejected. */
  lemma RejectedExamples()
    ensures !IsToken("1234:::")
    ensures !IsToken("1:! bad filegrp")
  {
  }
}
