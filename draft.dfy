/**
 * The email draft generate_report writes for a distributor with a contact:
 * a fixed letter, indented in the source text, passed through the standard
 * library's textwrap.dedent. The text is modelled as its lines (dedent's
 * regular expressions work line by line); a contact name or title is one
 * line of text.
 */
module Draft {
  import opened Optional
  import opened Text

  /** The characters dedent counts as indentation. */
  predicate IsBlank(c: char) {
    c == ' ' || c == '\t'
  }

  /** A line holding nothing but indentation (the empty line included). */
  predicate Blank(line: string) {
    forall i :: 0 <= i < |line| ==> IsBlank(line[i])
  }

  function Spaces(n: nat): (r: string)
    ensures |r| == n && Blank(r)
  {
    seq(n, _ => ' ')
  }

  /** The leading run of blanks of a line. */
  function Indent(line: string): (r: string)
    ensures StartsWith(line, r) && Blank(r)
    ensures |r| < |line| ==> !IsBlank(line[|r|])
  {
    if line != [] && IsBlank(line[0]) then [line[0]] + Indent(line[1..]) else []
  }

  /** dedent's first step: a line of blanks only becomes empty. */
  function Normalize(line: string): string {
    if Blank(line) then "" else line
  }

  /**
   * One step of dedent's margin loop: keep the margin when the indent
   * extends it, take the indent when the margin extends it, otherwise cut
   * the margin where the two first differ.
   */
  function Narrow(margin: string, indent: string): string {
    if StartsWith(indent, margin) then margin
    else if StartsWith(margin, indent) then indent
    else margin[..Agreement(margin, indent)]
  }

  /** The length of the common prefix of two strings. */
  function Agreement(a: string, b: string): (n: nat)
    ensures n <= |a| && n <= |b| && a[..n] == b[..n]
    ensures n < |a| && n < |b| ==> a[n] != b[n]
  {
    if a == [] || b == [] || a[0] != b[0] then 0
    else
      var n := Agreement(a[1..], b[1..]);
      assert a[1..][..n] == b[1..][..n];
      assert a[..n + 1] == [a[0]] + a[1..][..n];
      assert b[..n + 1] == [b[0]] + b[1..][..n];
      n + 1
  }

  /** dedent's margin: folded over the indents of the lines with text, in order; None when there are none. */
  function Margin(lines: seq<string>): Option<string> {
    if lines == [] then None
    else
      var last := lines[|lines| - 1];
      var m := Margin(lines[..|lines| - 1]);
      if Blank(last) then m
      else if m.None? then Some(Indent(last))
      else Some(Narrow(m.value, Indent(last)))
  }

  /** `p` is a prefix of the indent of every line with text. */
  predicate CommonIndent(p: string, lines: seq<string>) {
    forall i :: 0 <= i < |lines| && !Blank(lines[i]) ==> StartsWith(Indent(lines[i]), p)
  }

  lemma NarrowSpec(m: string, indent: string)
    ensures StartsWith(m, Narrow(m, indent)) && StartsWith(indent, Narrow(m, indent))
    ensures forall p :: StartsWith(m, p) && StartsWith(indent, p) ==> StartsWith(Narrow(m, indent), p)
  {
    var r := Narrow(m, indent);
    if !StartsWith(indent, m) && !StartsWith(m, indent) {
      var n := Agreement(m, indent);
      forall p | StartsWith(m, p) && StartsWith(indent, p)
        ensures StartsWith(r, p)
      {
        assert r[..|p|] == m[..|p|];
      }
    }
  }

  /**
   * The margin dedent computes is the longest common prefix of the indents
   * of the lines with text, and there is one exactly when some line has text.
   */
  lemma {:induction false} MarginSpec(lines: seq<string>)
    ensures Margin(lines).None? <==> forall i :: 0 <= i < |lines| ==> Blank(lines[i])
    ensures Margin(lines).Some? ==> CommonIndent(Margin(lines).value, lines)
    ensures Margin(lines).Some? ==> forall p :: CommonIndent(p, lines) ==> StartsWith(Margin(lines).value, p)
  {
    if lines != [] {
      var init, last := lines[..|lines| - 1], lines[|lines| - 1];
      MarginSpec(init);
      assert forall i :: 0 <= i < |init| ==> lines[i] == init[i];
      if !Blank(last) {
        var m := Margin(init);
        if m.Some? {
          NarrowSpec(m.value, Indent(last));
          forall p | CommonIndent(p, lines)
            ensures StartsWith(Margin(lines).value, p)
          {
            assert CommonIndent(p, init);
            assert StartsWith(Indent(lines[|lines| - 1]), p);
          }
          forall i | 0 <= i < |lines| && !Blank(lines[i])
            ensures StartsWith(Indent(lines[i]), Margin(lines).value)
          {
            if i < |init| {
              assert StartsWith(Indent(init[i]), m.value);
            }
          }
        } else {
          forall p | CommonIndent(p, lines)
            ensures StartsWith(Margin(lines).value, p)
          {
            assert StartsWith(Indent(lines[|lines| - 1]), p);
          }
        }
      }
    }
  }

  /** dedent's last step on one line: drop the margin from its start. */
  function Strip(line: string, margin: string): string {
    if StartsWith(line, margin) then line[|margin|..] else line
  }

  function NormalizeAll(lines: seq<string>): (r: seq<string>)
    ensures |r| == |lines| && forall i :: 0 <= i < |lines| ==> r[i] == Normalize(lines[i])
  {
    seq(|lines|, i requires 0 <= i < |lines| => Normalize(lines[i]))
  }

  /** textwrap.dedent on the lines of a text. */
  function Dedent(lines: seq<string>): seq<string> {
    var normal := NormalizeAll(lines);
    match Margin(normal)
    case Some(m) =>
      if m == "" then normal else seq(|normal|, i requires 0 <= i < |normal| => Strip(normal[i], m))
    case None => normal
  }

  /**
   * Dedent removes the common indentation: when the lines with text share an
   * indent `p` and `p` is the indent of one of them, every line with text
   * loses exactly `p`, and the lines of blanks become empty.
   */
  lemma DedentBy(lines: seq<string>, p: string, j: nat)
    requires j < |lines| && !Blank(lines[j]) && Indent(lines[j]) == p
    requires CommonIndent(p, lines)
    ensures |Dedent(lines)| == |lines|
    ensures forall i :: 0 <= i < |lines| && !Blank(lines[i]) ==> Dedent(lines)[i] == lines[i][|p|..]
    ensures forall i :: 0 <= i < |lines| && Blank(lines[i]) ==> Dedent(lines)[i] == ""
  {
    var normal := NormalizeAll(lines);
    assert forall i :: 0 <= i < |lines| ==> (Blank(normal[i]) <==> Blank(lines[i]));
    assert forall i :: 0 <= i < |lines| && !Blank(lines[i]) ==> normal[i] == lines[i];
    assert CommonIndent(p, normal);
    MarginSpec(normal);
    var m := Margin(normal).value;
    assert StartsWith(Indent(normal[j]), m);
    assert StartsWith(m, p);
    assert m == p;
    forall i | 0 <= i < |lines| && !Blank(lines[i])
      ensures StartsWith(lines[i], p)
    {
      assert StartsWith(Indent(lines[i]), p);
      assert lines[i][..|p|] == Indent(lines[i])[..|p|];
    }
  }

  /** The lines with text of a line list, each with its indent. */
  lemma IndentAfter(pad: string, s: string)
    requires Blank(pad) && (s == [] || !IsBlank(s[0]))
    ensures Indent(pad + s) == pad
  {
    if pad != [] {
      assert (pad + s)[1..] == pad[1..] + s;
      IndentAfter(pad[1..], s);
      assert [pad[0]] + pad[1..] == pad;
    } else {
      assert pad + s == s;
    }
  }

  /** The indentation of the letter's lines in the source text. */
  const Pad := Spaces(20)

  const Wellbeing := "I hope this message finds you well."
  const Request := "Could you please assist with the poster" + " and still images for the titles listed below?"
  const Featured := "These assets will be featured" + " onboard the Condor 0225 update."
  const Thanks := "Thank you in advance."
  const SignOff := "Best regards,"

  function Greeting(name: string): string {
    "Hi " + name + ","
  }

  /** The letter up to its list of titles: greeting, blank, two lines of request, blank. */
  function Opening(name: string): seq<string> {
    [Pad + Greeting(name), "", Pad + Wellbeing,
     Pad + Request, ""]
  }

  /** The letter after its list of titles, down to the closing quotes' own indentation. */
  const Closing: seq<string> :=
    ["", Pad + Featured, "",
     Pad + Thanks, "", Pad + SignOff, Spaces(16)]

  /**
   * The title lines as the source text produces them: the interpolated text
   * `"- t\n"` per title sits at the letter's indentation, so only its first
   * line is indented; the trailing newline leaves an empty line.
   */
  function TitleLinesAsWritten(titles: seq<string>): seq<string> {
    if titles == [] then [Pad]
    else [Pad + "- " + titles[0]] + seq(|titles| - 1, k requires 0 <= k < |titles| - 1 => "- " + titles[k + 1]) + [""]
  }

  /** The title lines with every title at the letter's indentation. */
  function TitleLines(titles: seq<string>): seq<string> {
    if titles == [] then [Pad]
    else seq(|titles|, k requires 0 <= k < |titles| => Pad + "- " + titles[k]) + [""]
  }

  function LetterAsWritten(name: string, titles: seq<string>): seq<string> {
    Opening(name) + TitleLinesAsWritten(titles) + Closing
  }

  function Letter(name: string, titles: seq<string>): seq<string> {
    Opening(name) + TitleLines(titles) + Closing
  }

  /** The message as the source builds it: the dedented letter, joined into one text. */
  function MessageAsWritten(name: string, titles: seq<string>): string {
    Unlines(Dedent(LetterAsWritten(name, titles)))
  }

  /** The message with the letter dedented as intended. */
  function Message(name: string, titles: seq<string>): string {
    Unlines(Dedent(Letter(name, titles)))
  }

  lemma PadBlank()
    ensures Blank(Pad) && |Pad| == 20
  {
  }

  /** A line of the letter with text after its indentation. */
  lemma PadLine(s: string)
    requires s != [] && !IsBlank(s[0])
    ensures Indent(Pad + s) == Pad && !Blank(Pad + s)
  {
    IndentAfter(Pad, s);
    assert (Pad + s)[20] == s[0];
  }

  lemma CommonIndentConcat(p: string, a: seq<string>, b: seq<string>)
    requires CommonIndent(p, a) && CommonIndent(p, b)
    ensures CommonIndent(p, a + b)
  {
    forall i | 0 <= i < |a + b| && !Blank((a + b)[i])
      ensures StartsWith(Indent((a + b)[i]), p)
    {
      if i >= |a| {
        assert (a + b)[i] == b[i - |a|];
      }
    }
  }

  lemma OpeningIndents(name: string)
    ensures var o := Opening(name);
            && !Blank(o[0]) && Indent(o[0]) == Pad && CommonIndent(Pad, o)
  {
    var o := Opening(name);
    assert Greeting(name)[0] == 'H';
    PadLine(Greeting(name));
    assert Wellbeing[0] == 'I';
    PadLine(Wellbeing);
    assert Request[0] == 'C';
    PadLine(Request);
    assert Blank(o[1]) && Blank(o[4]);
  }

  lemma ClosingIndents()
    ensures CommonIndent(Pad, Closing)
  {
    assert Featured[0] == 'T';
    PadLine(Featured);
    assert Thanks[0] == 'T';
    PadLine(Thanks);
    assert SignOff[0] == 'B';
    PadLine(SignOff);
    assert Blank(Closing[0]) && Blank(Closing[2]) && Blank(Closing[4]) && Blank(Closing[6]);
  }

  lemma TitleIndents(titles: seq<string>)
    ensures CommonIndent(Pad, TitleLines(titles))
  {
    var t := TitleLines(titles);
    forall i | 0 <= i < |t| && !Blank(t[i])
      ensures StartsWith(Indent(t[i]), Pad)
    {
      if i < |titles| {
        PadLine("- " + titles[i]);
      }
    }
  }

  /** Every line of the intended letter with text is indented by exactly the letter's indentation. */
  lemma LetterIndents(name: string, titles: seq<string>)
    ensures var l := Letter(name, titles);
            && !Blank(l[0]) && Indent(l[0]) == Pad
            && CommonIndent(Pad, l)
  {
    OpeningIndents(name);
    TitleIndents(titles);
    ClosingIndents();
    CommonIndentConcat(Pad, Opening(name), TitleLines(titles));
    CommonIndentConcat(Pad, Opening(name) + TitleLines(titles), Closing);
  }

  /**
   * The intended letter comes out of dedent flush left: the greeting opens
   * it, title `k` is line `5 + k` as `- title`, and the closing lines keep
   * their text.
   */
  lemma LetterDedented(name: string, titles: seq<string>)
    ensures var l, d := Letter(name, titles), Dedent(Letter(name, titles));
            && |d| == |l|
            && d[0] == Greeting(name)
            && (forall k :: 0 <= k < |titles| ==> d[5 + k] == "- " + titles[k])
            && d[|l| - 2] == SignOff
  {
    var l := Letter(name, titles);
    LetterIndents(name, titles);
    DedentBy(l, Pad, 0);
    assert l[0] == Pad + Greeting(name);
    forall k | 0 <= k < |titles|
      ensures Dedent(l)[5 + k] == "- " + titles[k]
    {
      DedentedTitleLine(name, titles, k);
    }
    assert SignOff[0] == 'B';
    PadLine(SignOff);
    assert l[|l| - 2] == Closing[5];
  }

  lemma DedentedTitleLine(name: string, titles: seq<string>, k: nat)
    requires k < |titles|
    ensures 5 + k < |Dedent(Letter(name, titles))| && Dedent(Letter(name, titles))[5 + k] == "- " + titles[k]
  {
    var l := Letter(name, titles);
    var item := "- " + titles[k];
    LetterTitleLine(name, titles, k);
    assert l[5 + k] == Pad + item;
    PadLine(item);
    LetterIndents(name, titles);
    DedentBy(l, Pad, 0);
    assert Dedent(l)[5 + k] == (Pad + item)[|Pad|..];
    assert (Pad + item)[|Pad|..] == item;
  }

  lemma LetterTitleLine(name: string, titles: seq<string>, k: nat)
    requires k < |titles|
    ensures 5 + k < |Letter(name, titles)| && Letter(name, titles)[5 + k] == Pad + "- " + titles[k]
  {
    var o, t := Opening(name), TitleLines(titles);
    assert (o + t + Closing)[5 + k] == t[k];
  }

  /** With one title the letter as written is the intended letter, so it is dedented. */
  lemma OneTitleAsIntended(name: string, title: string)
    ensures LetterAsWritten(name, [title]) == Letter(name, [title])
    ensures Dedent(LetterAsWritten(name, [title]))[0] == Greeting(name)
  {
    assert TitleLinesAsWritten([title]) == TitleLines([title]);
    LetterDedented(name, [title]);
  }

  /**
   * With two or more titles the second title's line has no indentation, so
   * dedent finds an empty margin and the letter keeps its 20-space
   * indentation: the greeting line is still `Pad + "Hi name,"`.
   */
  lemma SeveralTitlesStayIndented(name: string, titles: seq<string>)
    requires |titles| >= 2
    ensures var l, d := LetterAsWritten(name, titles), Dedent(LetterAsWritten(name, titles));
            && d[0] == Pad + Greeting(name)
            && d[6] == "- " + titles[1]
  {
    var l := LetterAsWritten(name, titles);
    var normal := NormalizeAll(l);
    var o, t := Opening(name), TitleLinesAsWritten(titles);
    OpeningIndents(name);
    assert t[1] == "- " + titles[1];
    assert l == o + t + Closing;
    assert l[0] == o[0];
    assert l[6] == t[1];
    assert Indent(l[6]) == "";
    assert !Blank(l[6]);
    MarginSpec(normal);
    assert Margin(normal).Some?;
    assert StartsWith(Indent(normal[6]), Margin(normal).value);
  }

  /** `"\n".join(lines)` begins with the first line. */
  lemma {:induction false} UnlinesStartsWith(lines: seq<string>)
    requires lines != []
    ensures StartsWith(Unlines(lines), lines[0])
  {
    if |lines| > 1 {
      UnlinesStartsWith(lines[..|lines| - 1]);
      var u := Unlines(lines[..|lines| - 1]);
      assert (u + "\n" + lines[|lines| - 1])[..|lines[0]|] == u[..|lines[0]|];
    }
  }

  /** The intended message greets the contact by name on its first line. */
  lemma MessageGreets(name: string, titles: seq<string>)
    ensures StartsWith(Message(name, titles), Greeting(name))
  {
    LetterDedented(name, titles);
    UnlinesStartsWith(Dedent(Letter(name, titles)));
  }

  /** The message as written starts with 20 spaces before the greeting when there are two or more titles. */
  lemma MessageAsWrittenIndented(name: string, titles: seq<string>)
    requires |titles| >= 2
    ensures StartsWith(MessageAsWritten(name, titles), Pad + Greeting(name))
  {
    SeveralTitlesStayIndented(name, titles);
    var l := LetterAsWritten(name, titles);
    assert |Dedent(l)| > 0 by {
      assert |NormalizeAll(l)| == |l|;
    }
    UnlinesStartsWith(Dedent(l));
  }
}
