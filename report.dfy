/**
 * The run's record of titles without images (`not_found`, a dict from
 * distributor to titles in insertion order) and generate_report, which turns
 * it, the distributor contacts and the failed copies into the lines of the
 * report text.
 */
module Report {
  import opened Optional
  import opened Text
  import Dict
  import Draft

  /** One row of the "Distributor_contact" sheet. */
  datatype Contact = Contact(distributor: string, name: string, email: string)

  /** `not_found[distributor].append(title)` on a defaultdict of lists. */
  function Record(nf: seq<Dict.Entry<seq<string>>>, distributor: string, title: string): seq<Dict.Entry<seq<string>>> {
    Dict.Set(nf, distributor, Dict.Get(nf, distributor).GetOr([]) + [title])
  }

  /** `sum(len(titles) for titles in not_found.values())` */
  function Total(nf: seq<Dict.Entry<seq<string>>>): nat {
    if nf == [] then 0 else |nf[0].value| + Total(nf[1..])
  }

  lemma {:induction false} TotalUpdate(nf: seq<Dict.Entry<seq<string>>>, i: nat, e: Dict.Entry<seq<string>>)
    requires i < |nf|
    ensures Total(nf[i := e]) == Total(nf) - |nf[i].value| + |e.value|
  {
    if i > 0 {
      assert nf[i := e][1..] == nf[1..][i - 1 := e];
      TotalUpdate(nf[1..], i - 1, e);
    }
  }

  lemma {:induction false} TotalAppend(nf: seq<Dict.Entry<seq<string>>>, e: Dict.Entry<seq<string>>)
    ensures Total(nf + [e]) == Total(nf) + |e.value|
  {
    if nf != [] {
      assert (nf + [e])[1..] == nf[1..] + [e];
      TotalAppend(nf[1..], e);
    } else {
      assert nf + [e] == [e];
    }
  }

  /**
   * Appending a title to a distributor's bucket adds one to the count, puts
   * the title at the end of that bucket (creating the bucket at the end of the
   * dict when it is new) and leaves every other bucket alone.
   */
  lemma RecordSpec(nf: seq<Dict.Entry<seq<string>>>, distributor: string, title: string)
    ensures var r := Record(nf, distributor, title);
            && Total(r) == Total(nf) + 1
            && Dict.Get(r, distributor) == Some(Dict.Get(nf, distributor).GetOr([]) + [title])
            && (forall d :: d != distributor ==> Dict.Get(r, d) == Dict.Get(nf, d))
            && (Dict.DistinctKeys(nf) ==> Dict.DistinctKeys(r))
  {
    var i := Dict.IndexOf(nf, distributor);
    var v := Dict.Get(nf, distributor).GetOr([]) + [title];
    if i < |nf| {
      TotalUpdate(nf, i, Dict.Entry(distributor, v));
    } else {
      TotalAppend(nf, Dict.Entry(distributor, v));
    }
  }

  /** The count is zero exactly when every bucket is empty. */
  lemma {:induction false} TotalZero(nf: seq<Dict.Entry<seq<string>>>)
    ensures Total(nf) == 0 <==> forall i :: 0 <= i < |nf| ==> nf[i].value == []
  {
    if nf != [] {
      TotalZero(nf[1..]);
      assert forall i :: 1 <= i < |nf| ==> nf[i] == nf[1..][i - 1];
    }
  }

  /** `distributor_contact_df[df['Distributor'] == distributor].iloc[0]`: the first contact row for the distributor. */
  function FindContact(contacts: seq<Contact>, distributor: string): (r: Option<Contact>)
    ensures r.None? <==> forall i :: 0 <= i < |contacts| ==> contacts[i].distributor != distributor
    ensures r.Some? ==> exists i :: 0 <= i < |contacts| && contacts[i] == r.value && r.value.distributor == distributor
                          && forall j :: 0 <= j < i ==> contacts[j].distributor != distributor
  {
    if contacts == [] then None
    else if contacts[0].distributor == distributor then Some(contacts[0])
    else
      var r := FindContact(contacts[1..], distributor);
      assert r.Some? ==> exists i :: 1 <= i < |contacts| && contacts[i] == r.value
                          && forall j :: 0 <= j < i ==> contacts[j].distributor != distributor by {
        if r.Some? {
          var i :| 0 <= i < |contacts| - 1 && contacts[1..][i] == r.value
                   && forall j :: 0 <= j < i ==> contacts[1..][j].distributor != distributor;
          assert contacts[i + 1] == r.value;
        }
      }
      r
  }

  /** One line of the report, kept as what it says until the report is written out. */
  datatype Line =
    | Missing(total: nat)
    | Distributor(distributor: string)
    | MissingTitle(title: string)
    | EmailHeading(distributor: string)
    | To(email: string)
    | MessageLabel
    | EmailBody(name: string, titles: seq<string>)
    | NoContact(distributor: string)
    | AllFound
    | ErrorsHeading
    | FailedCopy(path: string)

  /**
   * The text of each line, as generate_report formats it. The email body is
   * the corrected letter `Draft.Message`; the letter the source builds is
   * `Draft.MessageAsWritten`, which differs from it for two or more titles.
   */
  function Render(line: Line): string {
    match line
    case Missing(total) => "Images were not found for " + Decimal(total) + " titles:\n"
    case Distributor(d) => "DISTRIBUTOR " + UpperAll(d) + ":"
    case MissingTitle(t) => " - " + t
    case EmailHeading(d) => "\nEmail draft for " + d + ":"
    case To(email) => "To: " + email
    case MessageLabel => "Message:"
    case EmailBody(name, titles) => Draft.Message(name, titles)
    case NoContact(d) => "No contact information found for " + d
    case AllFound => "All images were successfully found."
    case ErrorsHeading => "\nErrors copying these files:"
    case FailedCopy(path) => "- " + path
  }

  function MissingTitles(titles: seq<string>): seq<Line> {
    seq(|titles|, k requires 0 <= k < |titles| => MissingTitle(titles[k]))
  }

  function FailedCopies(paths: seq<string>): seq<Line> {
    seq(|paths|, k requires 0 <= k < |paths| => FailedCopy(paths[k]))
  }

  /** Appending `more` to `start + done` gives `start + next` when `next` is `done + more`. */
  lemma Extend<T>(start: seq<T>, done: seq<T>, next: seq<T>, more: seq<T>)
    requires next == done + more
    ensures start + done + more == start + next
  {
  }

  /** The lines after a distributor's titles: an email draft for its contact, or a note that it has none. */
  function ContactLines(contact: Option<Contact>, distributor: string, titles: seq<string>): seq<Line> {
    match contact
    case Some(c) => [EmailHeading(distributor), To(c.email), MessageLabel, EmailBody(c.name, titles)]
    case None => [NoContact(distributor)]
  }

  function Section(e: Dict.Entry<seq<string>>, contacts: seq<Contact>): seq<Line> {
    [Distributor(e.key)] + MissingTitles(e.value) + ContactLines(FindContact(contacts, e.key), e.key, e.value)
  }

  /** The sections of all buckets, in insertion order. */
  function Sections(nf: seq<Dict.Entry<seq<string>>>, contacts: seq<Contact>): seq<Line> {
    if nf == [] then [] else Sections(nf[..|nf| - 1], contacts) + Section(nf[|nf| - 1], contacts)
  }

  /** The part of the report about titles without images. */
  function Summary(nf: seq<Dict.Entry<seq<string>>>, contacts: seq<Contact>): seq<Line> {
    if Total(nf) > 0 then [Missing(Total(nf))] + Sections(nf, contacts) else [AllFound]
  }

  function ErrorLines(errors: seq<string>): seq<Line> {
    if errors == [] then [] else [ErrorsHeading] + FailedCopies(errors)
  }

  /** The report's lines. */
  function ReportLines(nf: seq<Dict.Entry<seq<string>>>, contacts: seq<Contact>, errors: seq<string>): seq<Line> {
    Summary(nf, contacts) + ErrorLines(errors)
  }

  /** The text of image_search_report.txt: the lines joined with newlines. */
  function ReportText(nf: seq<Dict.Entry<seq<string>>>, contacts: seq<Contact>, errors: seq<string>): string {
    var lines := ReportLines(nf, contacts, errors);
    Unlines(seq(|lines|, i requires 0 <= i < |lines| => Render(lines[i])))
  }

  /** The sections of two runs of buckets follow one another. */
  lemma {:induction false} SectionsConcat(a: seq<Dict.Entry<seq<string>>>, b: seq<Dict.Entry<seq<string>>>,
                                          contacts: seq<Contact>)
    ensures Sections(a + b, contacts) == Sections(a, contacts) + Sections(b, contacts)
  {
    if b == [] {
      assert a + b == a;
    } else {
      var init, last := b[..|b| - 1], b[|b| - 1];
      var ab := a + b;
      assert ab[..|ab| - 1] == a + init;
      assert ab[|ab| - 1] == last;
      SectionsConcat(a, init, contacts);
      var sa, si, sl := Sections(a, contacts), Sections(init, contacts), Section(last, contacts);
      SectionsLast(ab, contacts);
      assert Sections(ab, contacts) == (sa + si) + sl;
      SectionsLast(b, contacts);
      Extend(sa, si, si + sl, sl);
    }
  }

  lemma SectionsLast(nf: seq<Dict.Entry<seq<string>>>, contacts: seq<Contact>)
    requires nf != []
    ensures Sections(nf, contacts) == Sections(nf[..|nf| - 1], contacts) + Section(nf[|nf| - 1], contacts)
  {
  }

  lemma SectionsSnoc(nf: seq<Dict.Entry<seq<string>>>, contacts: seq<Contact>, i: nat)
    requires i < |nf|
    ensures Sections(nf[..i + 1], contacts) == Sections(nf[..i], contacts) + Section(nf[i], contacts)
  {
    assert nf[..i + 1][..i] == nf[..i];
  }

  /**
   * Buckets are reported in insertion order: bucket `i`'s section comes
   * between the sections of the buckets before it and those after it.
   */
  lemma SectionsInOrder(nf: seq<Dict.Entry<seq<string>>>, contacts: seq<Contact>, i: nat)
    requires i < |nf|
    ensures Sections(nf, contacts)
            == Sections(nf[..i], contacts) + Section(nf[i], contacts) + Sections(nf[i + 1..], contacts)
  {
    assert nf[..i + 1] + nf[i + 1..] == nf;
    SectionsConcat(nf[..i + 1], nf[i + 1..], contacts);
    SectionsSnoc(nf, contacts, i);
  }

  /**
   * The report opens with the count of titles without images, or with the
   * single confirmation line when there are none, which happens exactly when
   * every bucket is empty.
   */
  lemma ReportSummary(nf: seq<Dict.Entry<seq<string>>>, contacts: seq<Contact>, errors: seq<string>)
    ensures var lines := ReportLines(nf, contacts, errors);
            && (Total(nf) == 0 <==> forall i :: 0 <= i < |nf| ==> nf[i].value == [])
            && (Total(nf) > 0 ==> lines[0] == Missing(Total(nf)))
            && (Total(nf) == 0 ==> lines[0] == AllFound && |lines| == if errors == [] then 1 else 2 + |errors|)
  {
    TotalZero(nf);
  }

  /** A bucket's section names its distributor, lists each of its titles, then its contact's draft or the missing-contact note. */
  lemma SectionContents(e: Dict.Entry<seq<string>>, contacts: seq<Contact>)
    ensures var sec, c := Section(e, contacts), FindContact(contacts, e.key);
            && sec[0] == Distributor(e.key)
            && (forall k :: 0 <= k < |e.value| ==> sec[1 + k] == MissingTitle(e.value[k]))
            && (c.None? ==> sec[1 + |e.value|..] == [NoContact(e.key)])
            && (c.Some? ==> sec[1 + |e.value|..] == [EmailHeading(e.key), To(c.value.email), MessageLabel,
                                                     EmailBody(c.value.name, e.value)])
  {
    var sec := Section(e, contacts);
    assert sec[1 + |e.value|..] == ContactLines(FindContact(contacts, e.key), e.key, e.value);
  }

  lemma InMiddle<T>(a: seq<T>, m: seq<T>, b: seq<T>)
    ensures forall x :: x in m ==> x in a + m + b
  {
    forall x | x in m
      ensures x in a + m + b
    {
      var k :| 0 <= k < |m| && m[k] == x;
      assert (a + m + b)[|a| + k] == x;
    }
  }

  lemma Regroup<T>(h: seq<T>, a: seq<T>, m: seq<T>, b: seq<T>, t: seq<T>)
    ensures h + (a + m + b) + t == (h + a) + m + (b + t)
  {
  }

  lemma SectionInReport(nf: seq<Dict.Entry<seq<string>>>, contacts: seq<Contact>, errors: seq<string>, i: nat)
    requires i < |nf| && Total(nf) > 0
    ensures forall x :: x in Section(nf[i], contacts) ==> x in ReportLines(nf, contacts, errors)
  {
    SectionsInOrder(nf, contacts, i);
    var a := [Missing(Total(nf))] + Sections(nf[..i], contacts);
    var sec := Section(nf[i], contacts);
    var b := Sections(nf[i + 1..], contacts) + ErrorLines(errors);
    Regroup([Missing(Total(nf))], Sections(nf[..i], contacts), sec, Sections(nf[i + 1..], contacts), ErrorLines(errors));
    InMiddle(a, sec, b);
  }

  /** A bucket's section holds its distributor, each of its titles and its contact's address and letter or the missing-contact note. */
  lemma BucketInSection(e: Dict.Entry<seq<string>>, contacts: seq<Contact>)
    ensures var sec, c := Section(e, contacts), FindContact(contacts, e.key);
            && Distributor(e.key) in sec
            && (forall t :: t in e.value ==> MissingTitle(t) in sec)
            && (c.None? ==> NoContact(e.key) in sec)
            && (c.Some? ==> To(c.value.email) in sec && EmailBody(c.value.name, e.value) in sec)
  {
    var sec, c := Section(e, contacts), FindContact(contacts, e.key);
    SectionContents(e, contacts);
    assert sec[0] == Distributor(e.key);
    forall t | t in e.value
      ensures MissingTitle(t) in sec
    {
      var k :| 0 <= k < |e.value| && e.value[k] == t;
      assert sec[1 + k] == MissingTitle(t);
    }
    var n := 1 + |e.value|;
    if c.None? {
      assert sec[n] == sec[n..][0] == NoContact(e.key);
    } else {
      assert sec[n + 1] == sec[n..][1] == To(c.value.email);
      assert sec[n + 3] == sec[n..][3] == EmailBody(c.value.name, e.value);
    }
  }

  /**
   * When some title is missing, every bucket is reported: its distributor,
   * each of its titles, and either its contact's address and a letter
   * listing the bucket's titles, or the note that no contact is known.
   */
  lemma EveryBucketReported(nf: seq<Dict.Entry<seq<string>>>, contacts: seq<Contact>, errors: seq<string>, i: nat)
    requires i < |nf| && Total(nf) > 0
    ensures var lines, e, c := ReportLines(nf, contacts, errors), nf[i], FindContact(contacts, nf[i].key);
            && Distributor(e.key) in lines
            && (forall t :: t in e.value ==> MissingTitle(t) in lines)
            && (c.None? ==> NoContact(e.key) in lines)
            && (c.Some? ==> To(c.value.email) in lines && EmailBody(c.value.name, e.value) in lines)
  {
    BucketInSection(nf[i], contacts);
    SectionInReport(nf, contacts, errors, i);
  }

  /** In `head + ([x] + tail)`, `x` sits right after `head` and `tail` follows it. */
  lemma PlaceAfter<T>(head: seq<T>, x: T, tail: seq<T>)
    ensures |head + ([x] + tail)| == |head| + 1 + |tail|
    ensures (head + ([x] + tail))[|head|] == x
    ensures forall k :: 0 <= k < |tail| ==> (head + ([x] + tail))[|head| + 1 + k] == tail[k]
  {
  }

  /** When copies failed, the report ends with their heading and one line per failed source path, in order. */
  lemma ErrorsAtEnd(nf: seq<Dict.Entry<seq<string>>>, contacts: seq<Contact>, errors: seq<string>)
    requires errors != []
    ensures var lines := ReportLines(nf, contacts, errors);
            var n := |lines| - |errors|;
            && n >= 2
            && lines[n - 1] == ErrorsHeading
            && forall k :: 0 <= k < |errors| ==> lines[n + k] == FailedCopy(errors[k])
  {
    var head, tail := Summary(nf, contacts), FailedCopies(errors);
    assert |head| >= 1;
    assert ErrorLines(errors) == [ErrorsHeading] + tail;
    PlaceAfter(head, ErrorsHeading, tail);
  }

  /**
   * The body of generate_report's loop over the buckets: the distributor
   * line, a line per title, then the contact's email draft or the note that
   * there is no contact.
   */
  method AppendSection(lines: seq<Line>, distributor: string, titles: seq<string>, contacts: seq<Contact>)
    returns (out: seq<Line>)
    ensures out == lines + Section(Dict.Entry(distributor, titles), contacts)
  {
    out := lines + [Distributor(distributor)];
    ghost var start := out;
    var j := 0;
    while j < |titles|
      invariant 0 <= j <= |titles|
      invariant out == start + MissingTitles(titles[..j])
    {
      assert MissingTitles(titles[..j + 1]) == MissingTitles(titles[..j]) + [MissingTitle(titles[j])];
      Extend(start, MissingTitles(titles[..j]), MissingTitles(titles[..j + 1]), [MissingTitle(titles[j])]);
      out := out + [MissingTitle(titles[j])];
      j := j + 1;
    }
    assert titles[..j] == titles;
    var contact := FindContact(contacts, distributor);
    if contact.Some? {
      out := out + [EmailHeading(distributor), To(contact.value.email), MessageLabel, EmailBody(contact.value.name, titles)];
    } else {
      out := out + [NoContact(distributor)];
    }
  }

  /** generate_report, up to writing the joined lines to the file (see ReportText). */
  method GenerateReport(notFound: seq<Dict.Entry<seq<string>>>, contacts: seq<Contact>, copyErrors: seq<string>)
    returns (lines: seq<Line>)
    ensures lines == ReportLines(notFound, contacts, copyErrors)
  {
    var total := Total(notFound);
    lines := [];
    if total > 0 {
      lines := lines + [Missing(total)];
      var i := 0;
      while i < |notFound|
        invariant 0 <= i <= |notFound|
        invariant lines == [Missing(total)] + Sections(notFound[..i], contacts)
      {
        SectionsSnoc(notFound, contacts, i);
        assert notFound[i] == Dict.Entry(notFound[i].key, notFound[i].value);
        Extend([Missing(total)], Sections(notFound[..i], contacts), Sections(notFound[..i + 1], contacts),
               Section(notFound[i], contacts));
        lines := AppendSection(lines, notFound[i].key, notFound[i].value, contacts);
        i := i + 1;
      }
      assert notFound[..i] == notFound;
    } else {
      lines := lines + [AllFound];
    }
    ghost var head := lines;
    if copyErrors != [] {
      lines := lines + [ErrorsHeading];
      ghost var start := lines;
      var k := 0;
      while k < |copyErrors|
        invariant 0 <= k <= |copyErrors|
        invariant lines == start + FailedCopies(copyErrors[..k])
      {
        assert FailedCopies(copyErrors[..k + 1]) == FailedCopies(copyErrors[..k]) + [FailedCopy(copyErrors[k])];
        Extend(start, FailedCopies(copyErrors[..k]), FailedCopies(copyErrors[..k + 1]), [FailedCopy(copyErrors[k])]);
        lines := lines + [FailedCopy(copyErrors[k])];
        k := k + 1;
      }
      assert copyErrors[..k] == copyErrors;
      Extend(head, [ErrorsHeading], ErrorLines(copyErrors), FailedCopies(copyErrors));
    }
    assert lines == head + ErrorLines(copyErrors);
  }
}
