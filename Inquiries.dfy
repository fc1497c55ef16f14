/** The public lab-inquiry endpoint (`api/labs/inquiries`): a chain of
    checks on the submitted fields, the first failure deciding the reply,
    and otherwise one normalised row for the `lab_inquiries` table. Each
    field is absent (`None`) or a string; whether the insert fails is a
    parameter. */
module Inquiries {
  import opened Text

  // ---------------------------------------------------------------------
  // EMAIL_RE = ^[^\s@]+@[^\s@]+\.[^\s@]+$
  // ---------------------------------------------------------------------

  /** A character of the class `[^\s@]`. */
  predicate Plain(c: char) {
    c != '@' && !IsJsSpace(c)
  }

  /** The strings the pattern matches, read off its structure: a
      non-empty run, `@`, a non-empty run, a dot, a non-empty run, each
      run free of white space and `@`. */
  ghost predicate EmailPattern(e: string) {
    exists a: string, x: string, y: string ::
      (e == a + "@" + x + "." + y && a != [] && x != [] && y != []
       && AllOf(a, Plain) && AllOf(x, Plain) && AllOf(y, Plain))
  }

  /** The pattern's test as a scan: a single `@` that is not first, no
      white space, and a dot in the domain that is neither its first nor
      the last character. */
  predicate EmailOk(e: string) {
    exists k :: 0 < k < |e| && e[k] == '@'
      && (forall i :: 0 <= i < |e| && i != k ==> Plain(e[i]))
      && (exists j :: k + 1 < j < |e| - 1 && e[j] == '.')
  }

  /** The scan accepts exactly the strings the pattern matches. */
  lemma EmailOkMatchesPattern(e: string)
    ensures EmailOk(e) <==> EmailPattern(e)
  {
    if EmailOk(e) {
      var k :| 0 < k < |e| && e[k] == '@'
        && (forall i :: 0 <= i < |e| && i != k ==> Plain(e[i]))
        && (exists j :: k + 1 < j < |e| - 1 && e[j] == '.');
      var j :| k + 1 < j < |e| - 1 && e[j] == '.';
      var a, x, y := e[..k], e[k + 1..j], e[j + 1..];
      assert e == a + "@" + x + "." + y;
      assert AllOf(a, Plain) && AllOf(x, Plain) && AllOf(y, Plain);
    }
    if EmailPattern(e) {
      var a: string, x: string, y: string :| e == a + "@" + x + "." + y && a != [] && x != [] && y != []
        && AllOf(a, Plain) && AllOf(x, Plain) && AllOf(y, Plain);
      PatternPositions(a, x, y);
    }
  }

  /** Where the separators of a pattern match sit. */
  lemma PatternPositions(a: string, x: string, y: string)
    requires a != [] && x != [] && y != []
    requires AllOf(a, Plain) && AllOf(x, Plain) && AllOf(y, Plain)
    ensures EmailOk(a + "@" + x + "." + y)
  {
    var e := a + "@" + x + "." + y;
    var k, j := |a|, |a| + 1 + |x|;
    assert e[k] == '@' && e[j] == '.';
    forall i | 0 <= i < |e| && i != k
      ensures Plain(e[i])
    {
      if i < k {
        assert e[i] == a[i];
      } else if i < j {
        assert e[i] == x[i - k - 1];
      } else if i > j {
        assert e[i] == y[i - j - 1];
      }
    }
  }

  /** A match has exactly one `@`, no white space, and text before the
      `@`, between it and a dot, and after that dot. */
  lemma EmailShape(e: string)
    requires EmailOk(e)
    ensures multiset(e)['@'] == 1
    ensures forall i :: 0 <= i < |e| ==> !IsJsSpace(e[i])
    ensures e[0] != '@' && e[|e| - 1] != '@' && e[|e| - 1] != ' '
  {
    var k :| 0 < k < |e| && e[k] == '@'
      && (forall i :: 0 <= i < |e| && i != k ==> Plain(e[i]))
      && (exists j :: k + 1 < j < |e| - 1 && e[j] == '.');
    assert e == e[..k] + [e[k]] + e[k + 1..];
    assert '@' !in e[..k] && '@' !in e[k + 1..];
    assert multiset(e) == multiset(e[..k]) + multiset{'@'} + multiset(e[k + 1..]);
  }

  // ---------------------------------------------------------------------
  // The request
  // ---------------------------------------------------------------------

  /** The fields read from the JSON body; an unreadable body has none. */
  datatype InquiryBody = InquiryBody(
    name: Option<string>, email: Option<string>, institution: Option<string>,
    labSize: Option<string>, message: Option<string>)

  /** A `lab_inquiries` row. */
  datatype InquiryRow = InquiryRow(
    name: string, email: string, institution: Option<string>, labSize: Option<string>, message: Option<string>)

  /** The reply: status, JSON message, and the row the handler tried to
      insert, if it got that far (the insert may still fail). */
  datatype Reply = Reply(status: nat, text: string, attempted: Option<InquiryRow>)

  const MaxName: nat := 200
  /** Declared for the email too, but never checked. */
  const MaxEmail: nat := 320
  const MaxInstitution: nat := 300
  const MaxMessage: nat := 5000

  predicate ValidLabSize(s: string) {
    s in {"2-10", "10-25", "25-50", "50+"}
  }

  /** JavaScript truthiness of an optional string. */
  predicate Given(s: Option<string>) {
    s.Some? && s.value != ""
  }

  /** An optional text that is present and not blank, trimmed, otherwise
      `null`. */
  function TrimmedOrNull(s: Option<string>): (r: Option<string>)
    ensures r.Some? <==> s.Some? && JsTrim(s.value) != ""
    ensures r.Some? ==> r.value == JsTrim(s.value)
  {
    if s.Some? && JsTrim(s.value) != "" then Some(JsTrim(s.value)) else None
  }

  /** The row written for an accepted inquiry. */
  function NormalRow(b: InquiryBody): InquiryRow
    requires b.name.Some? && b.email.Some?
  {
    InquiryRow(JsTrim(b.name.value), Lower(JsTrim(b.email.value)), TrimmedOrNull(b.institution),
               if Given(b.labSize) then b.labSize else None, TrimmedOrNull(b.message))
  }

  /** The reply to `POST`. */
  function PostInquiry(b: InquiryBody, insertFails: bool): Reply {
    if b.name.None? || JsTrim(b.name.value) == "" || b.email.None? || JsTrim(b.email.value) == "" then
      Reply(400, "Name and email are required", None)
    else if !EmailOk(JsTrim(b.email.value)) then
      Reply(400, "Invalid email format", None)
    else if |JsTrim(b.name.value)| > MaxName then
      Reply(400, "Name too long (max 200 chars)", None)
    else if Given(b.institution) && |JsTrim(b.institution.value)| > MaxInstitution then
      Reply(400, "Institution too long (max 300 chars)", None)
    else if Given(b.message) && |JsTrim(b.message.value)| > MaxMessage then
      Reply(400, "Message too long (max 5000 chars)", None)
    else if Given(b.labSize) && !ValidLabSize(b.labSize.value) then
      Reply(400, "Invalid lab size", None)
    else if insertFails then
      Reply(500, "Something went wrong", Some(NormalRow(b)))
    else
      Reply(201, "submitted", Some(NormalRow(b)))
  }

  /** Every field check passes. */
  predicate Acceptable(b: InquiryBody) {
    && b.name.Some? && JsTrim(b.name.value) != ""
    && b.email.Some? && JsTrim(b.email.value) != ""
    && EmailOk(JsTrim(b.email.value))
    && |JsTrim(b.name.value)| <= MaxName
    && (Given(b.institution) ==> |JsTrim(b.institution.value)| <= MaxInstitution)
    && (Given(b.message) ==> |JsTrim(b.message.value)| <= MaxMessage)
    && (Given(b.labSize) ==> ValidLabSize(b.labSize.value))
  }

  /** An insert is attempted exactly when every check passes, and with
      the normalised row; a rejected inquiry gets 400 and attempts nothing;
      an accepted one gets 201, or 500 when the insert fails. */
  lemma InquiryAccepted(b: InquiryBody, insertFails: bool)
    ensures var r := PostInquiry(b, insertFails);
            && (r.attempted.Some? <==> Acceptable(b))
            && (!Acceptable(b) ==> r.status == 400)
            && (Acceptable(b) ==> r.status == (if insertFails then 500 else 201) && r.attempted == Some(NormalRow(b)))
  {
  }

  /** A missing or blank name or email is reported before anything else,
      and an email the pattern rejects is reported before any length. */
  lemma FirstFailureDecides(b: InquiryBody, insertFails: bool)
    ensures (b.name.None? || b.email.None? || JsTrim(b.name.value) == "" || JsTrim(b.email.value) == "") ==>
              PostInquiry(b, insertFails).text == "Name and email are required"
    ensures b.name.Some? && JsTrim(b.name.value) != "" && b.email.Some? && JsTrim(b.email.value) != ""
              && !EmailPattern(JsTrim(b.email.value)) ==>
              PostInquiry(b, insertFails) == Reply(400, "Invalid email format", None)
  {
    if b.email.Some? {
      EmailOkMatchesPattern(JsTrim(b.email.value));
    }
  }

  /** The stored row is normalised: the name trimmed, the email trimmed
      and lower-cased with one `@` and no white space, blank optional
      texts stored as `null` and the others trimmed, and an empty lab size
      stored as `null`. */
  lemma RowNormalised(b: InquiryBody, insertFails: bool)
    requires Acceptable(b)
    ensures var row := PostInquiry(b, insertFails).attempted.value;
            && row.name == JsTrim(b.name.value) && row.name != ""
            && row.email == Lower(JsTrim(b.email.value)) && multiset(row.email)['@'] == 1
            && (row.institution.None? <==> b.institution.None? || JsTrim(b.institution.value) == "")
            && (row.message.None? <==> b.message.None? || JsTrim(b.message.value) == "")
            && (row.labSize.Some? ==> ValidLabSize(row.labSize.value))
  {
    var e := JsTrim(b.email.value);
    EmailShape(e);
    LowerKeepsAt(e);
  }

  /** Lower-casing keeps the `@` signs, and adds none. */
  lemma {:induction false} LowerKeepsAt(s: string)
    ensures multiset(Lower(s))['@'] == multiset(s)['@']
  {
    if s != [] {
      LowerKeepsAt(s[1..]);
      assert Lower(s) == [AsciiLower(s[0])] + Lower(s[1..]);
      assert s == [s[0]] + s[1..];
    }
  }
}
