/**
 * The string operations the tool relies on, restricted to ASCII: the title
 * key `clean_string`, substring containment (`needle in hay`), `str.strip`,
 * `str.upper` and the decimal rendering of a count.
 */
module Text {
  import opened Optional

  predicate IsUpper(c: char) { 'A' <= c <= 'Z' }
  predicate IsLower(c: char) { 'a' <= c <= 'z' }
  predicate IsDigit(c: char) { '0' <= c <= '9' }

  /** A character that the regular expression class `\W` does NOT match: a letter, a digit or `_`. */
  predicate IsWordChar(c: char) { IsUpper(c) || IsLower(c) || IsDigit(c) || c == '_' }

  /** `str.isspace` on ASCII: tab, line feed, vertical tab, form feed, carriage return, the four separators 0x1C-0x1F and space. */
  predicate IsSpace(c: char) { 9 <= c as int <= 13 || 28 <= c as int <= 32 }

  /** A string is truthy in Python exactly when it is not empty; an absent value is falsy. */
  predicate Truthy(v: Option<string>) { v.Some? && v.value != "" }

  function Lower(c: char): char {
    if IsUpper(c) then (c as int + 32) as char else c
  }

  function Upper(c: char): char {
    if IsLower(c) then (c as int - 32) as char else c
  }

  /** `str.lower` */
  function LowerAll(s: string): string {
    if s == [] then [] else [Lower(s[0])] + LowerAll(s[1..])
  }

  /** `str.upper` */
  function UpperAll(s: string): string {
    if s == [] then [] else [Upper(s[0])] + UpperAll(s[1..])
  }

  /** `re.sub(r'\W+', '', s)`: keeps the word characters of `s`, in order. */
  function RemoveNonWord(s: string): string {
    if s == [] then [] else (if IsWordChar(s[0]) then [s[0]] else []) + RemoveNonWord(s[1..])
  }

  /**
   * clean_string: the title key. An empty input gives the empty key; otherwise
   * every non-word character is removed and the rest is lower-cased.
   */
  function CleanString(s: string): string {
    if s == "" then "" else LowerAll(RemoveNonWord(s))
  }

  lemma {:induction false} LowerAllConcat(a: string, b: string)
    ensures LowerAll(a + b) == LowerAll(a) + LowerAll(b)
  {
    if a != [] {
      assert (a + b)[1..] == a[1..] + b;
      LowerAllConcat(a[1..], b);
    } else {
      assert a + b == b;
    }
  }

  lemma {:induction false} RemoveNonWordChars(s: string)
    ensures |RemoveNonWord(s)| <= |s|
    ensures forall c :: c in RemoveNonWord(s) ==> IsWordChar(c)
  {
    if s != [] {
      RemoveNonWordChars(s[1..]);
    }
  }

  lemma {:induction false} LowerAllChars(s: string)
    ensures |LowerAll(s)| == |s|
    ensures forall c :: c in LowerAll(s) ==> !IsUpper(c)
    ensures (forall c :: c in s ==> IsWordChar(c)) ==> forall c :: c in LowerAll(s) ==> IsWordChar(c)
  {
    if s != [] {
      LowerAllChars(s[1..]);
    }
  }

  /** Lower-casing leaves a string without upper-case letters as it is. */
  lemma {:induction false} LowerAllKeepsLower(s: string)
    requires forall c :: c in s ==> !IsUpper(c)
    ensures LowerAll(s) == s
  {
    if s != [] {
      LowerAllKeepsLower(s[1..]);
    }
  }

  /** The key is no longer than its input and consists of word characters only, none of them upper-case. */
  lemma CleanStringChars(s: string)
    ensures |CleanString(s)| <= |s|
    ensures forall c :: c in CleanString(s) ==> IsWordChar(c) && !IsUpper(c)
  {
    RemoveNonWordChars(s);
    LowerAllChars(RemoveNonWord(s));
  }

  lemma {:induction false} RemoveNonWordConcat(a: string, b: string)
    ensures RemoveNonWord(a + b) == RemoveNonWord(a) + RemoveNonWord(b)
  {
    if a == [] {
      assert a + b == b;
    } else {
      var head := if IsWordChar(a[0]) then [a[0]] else [];
      assert (a + b)[0] == a[0] && (a + b)[1..] == a[1..] + b;
      RemoveNonWordConcat(a[1..], b);
      assert RemoveNonWord(a + b) == head + (RemoveNonWord(a[1..]) + RemoveNonWord(b));
      assert RemoveNonWord(a) == head + RemoveNonWord(a[1..]);
    }
  }

  lemma {:induction false} RemoveNonWordKeepsWords(s: string)
    requires forall c :: c in s ==> IsWordChar(c)
    ensures RemoveNonWord(s) == s
  {
    if s != [] {
      RemoveNonWordKeepsWords(s[1..]);
    }
  }

  lemma {:induction false} RemoveNonWordLower(s: string)
    ensures RemoveNonWord(LowerAll(s)) == LowerAll(RemoveNonWord(s))
  {
    if s != [] {
      RemoveNonWordLower(s[1..]);
      var head := if IsWordChar(s[0]) then [s[0]] else [];
      LowerAllConcat(head, RemoveNonWord(s[1..]));
      assert LowerAll(s) == [Lower(s[0])] + LowerAll(s[1..]);
      assert RemoveNonWord(LowerAll(s)) == (if IsWordChar(Lower(s[0])) then [Lower(s[0])] else []) + RemoveNonWord(LowerAll(s[1..]));
    }
  }

  /** The key is built character by character: clean_string(a + b) == clean_string(a) + clean_string(b). */
  lemma CleanStringConcat(a: string, b: string)
    ensures CleanString(a + b) == CleanString(a) + CleanString(b)
  {
    RemoveNonWordConcat(a, b);
    if a == "" {
      assert a + b == b;
    } else if b == "" {
      assert a + b == a;
    } else {
      LowerAllConcat(RemoveNonWord(a), RemoveNonWord(b));
    }
  }

  /** A single character keeps only its lower-case form, and only when it is a word character. */
  lemma CleanStringChar(c: char)
    ensures CleanString([c]) == if IsWordChar(c) then [Lower(c)] else []
  {
    assert [c][1..] == [];
    assert RemoveNonWord([c]) == (if IsWordChar(c) then [c] else []) + RemoveNonWord([]);
    if IsWordChar(c) {
      assert LowerAll([c]) == [Lower(c)] + LowerAll([]);
    }
  }

  /** Normalizing twice gives the same key as normalizing once. */
  lemma CleanStringIdempotent(s: string)
    ensures CleanString(CleanString(s)) == CleanString(s)
  {
    var r := CleanString(s);
    CleanStringChars(s);
    if r != "" {
      RemoveNonWordKeepsWords(r);
      LowerAllKeepsLower(r);
    }
  }

  /** The key does not depend on letter case. */
  lemma CleanStringIgnoresCase(s: string)
    ensures CleanString(LowerAll(s)) == CleanString(s)
  {
    LowerAllChars(s);
    if s != "" {
      RemoveNonWordLower(s);
      var w := RemoveNonWord(s);
      LowerAllChars(w);
      LowerAllKeepsLower(LowerAll(w));
    }
  }

  /** `p` is a prefix of `s`: `s.startswith(p)`. */
  predicate StartsWith(s: string, p: string) {
    |p| <= |s| && s[..|p|] == p
  }

  /** `needle in hay` for Python strings. */
  predicate Contains(hay: string, needle: string)
    decreases |hay|
  {
    StartsWith(hay, needle) || (hay != [] && Contains(hay[1..], needle))
  }

  /** `needle` occurs in `hay` starting at offset `k`. */
  predicate OccursAt(hay: string, needle: string, k: int) {
    0 <= k <= |hay| - |needle| && hay[k..k + |needle|] == needle
  }

  lemma {:induction false} ContainsOccurs(hay: string, needle: string)
    requires Contains(hay, needle)
    ensures exists k :: OccursAt(hay, needle, k)
    decreases |hay|
  {
    if StartsWith(hay, needle) {
      assert OccursAt(hay, needle, 0);
    } else {
      ContainsOccurs(hay[1..], needle);
      var k :| OccursAt(hay[1..], needle, k);
      assert hay[1..][k..k + |needle|] == hay[k + 1..k + 1 + |needle|];
      assert OccursAt(hay, needle, k + 1);
    }
  }

  lemma {:induction false} OccursContains(hay: string, needle: string, k: int)
    requires OccursAt(hay, needle, k)
    ensures Contains(hay, needle)
    decreases k
  {
    if k == 0 {
      assert StartsWith(hay, needle);
    } else {
      assert hay[1..][k - 1..k - 1 + |needle|] == hay[k..k + |needle|];
      OccursContains(hay[1..], needle, k - 1);
    }
  }

  /** Containment means the needle occurs at some offset of the haystack. */
  lemma ContainsAt(hay: string, needle: string)
    ensures Contains(hay, needle) <==> exists k :: OccursAt(hay, needle, k)
  {
    if Contains(hay, needle) {
      ContainsOccurs(hay, needle);
    }
    if exists k :: OccursAt(hay, needle, k) {
      var k :| OccursAt(hay, needle, k);
      OccursContains(hay, needle, k);
    }
  }

  /** The empty string is contained in every string, so an empty key matches every file name. */
  lemma ContainsEmpty(hay: string)
    ensures Contains(hay, "")
  {
  }

  /** `s.lstrip()` */
  function TrimStart(s: string): (r: string)
    ensures |r| <= |s| && r == s[|s| - |r|..]
    ensures forall k :: 0 <= k < |s| - |r| ==> IsSpace(s[k])
    ensures r != [] ==> !IsSpace(r[0])
  {
    if s != [] && IsSpace(s[0]) then TrimStart(s[1..]) else s
  }

  /** `s.rstrip()` */
  function TrimEnd(s: string): (r: string)
    ensures |r| <= |s| && r == s[..|r|]
    ensures forall k :: |r| <= k < |s| ==> IsSpace(s[k])
    ensures r != [] ==> !IsSpace(r[|r| - 1])
  {
    if s != [] && IsSpace(s[|s| - 1]) then TrimEnd(s[..|s| - 1]) else s
  }

  /**
   * `s.strip()`: the longest slice of `s` that neither starts nor ends with
   * whitespace, everything cut off on either side being whitespace.
   */
  function Trim(s: string): (r: string)
    ensures r == [] || (!IsSpace(r[0]) && !IsSpace(r[|r| - 1]))
    ensures exists a :: StrippedAt(s, a, r)
  {
    var t := TrimStart(s);
    var r := TrimEnd(t);
    StrippedOf(s, t, r);
    r
  }

  /** Cutting whitespace off the front of `s` and then off the back leaves a stripped slice of `s`. */
  lemma StrippedOf(s: string, t: string, r: string)
    requires |t| <= |s| && t == s[|s| - |t|..] && forall k :: 0 <= k < |s| - |t| ==> IsSpace(s[k])
    requires |r| <= |t| && r == t[..|r|] && forall k :: |r| <= k < |t| ==> IsSpace(t[k])
    requires t != [] ==> !IsSpace(t[0])
    requires r != [] ==> !IsSpace(r[|r| - 1])
    ensures StrippedAt(s, |s| - |t|, r)
    ensures r == [] || (!IsSpace(r[0]) && !IsSpace(r[|r| - 1]))
  {
    if r != [] {
      assert r[0] == t[0];
    }
    var a := |s| - |t|;
    forall k | a + |r| <= k < |s|
      ensures IsSpace(s[k])
    {
      assert s[k] == t[k - a];
    }
  }

  /** `r` is the slice of `s` at offset `a`, and everything of `s` before and after it is whitespace. */
  predicate StrippedAt(s: string, a: int, r: string) {
    && 0 <= a <= |s| - |r|
    && r == s[a..a + |r|]
    && (forall k :: 0 <= k < a ==> IsSpace(s[k]))
    && (forall k :: a + |r| <= k < |s| ==> IsSpace(s[k]))
  }

  /** The decimal digit character for `d`. */
  function DigitChar(d: nat): (c: char)
    requires d < 10
    ensures IsDigit(c) && c as int - '0' as int == d
  {
    ('0' as int + d) as char
  }

  /** `f"{n}"` for a non-negative int: its decimal digits, most significant first, without leading zeros. */
  function Decimal(n: nat): (r: string)
    ensures r != [] && forall i :: 0 <= i < |r| ==> IsDigit(r[i])
    ensures r[0] == '0' ==> n == 0 && r == "0"
  {
    if n < 10 then [DigitChar(n)] else Decimal(n / 10) + [DigitChar(n % 10)]
  }

  /** The value of a decimal digit character. */
  function DigitValue(c: char): (d: nat)
    requires IsDigit(c)
    ensures d < 10
  {
    c as int - '0' as int
  }

  /** The number that a string of decimal digits denotes (`int(s)`). */
  function DecimalValue(s: string): nat
    requires forall i :: 0 <= i < |s| ==> IsDigit(s[i])
  {
    if s == [] then 0 else DecimalValue(s[..|s| - 1]) * 10 + DigitValue(s[|s| - 1])
  }

  /** Reading back the decimal rendering of a count gives the count. */
  lemma {:induction false} DecimalRoundTrip(n: nat)
    ensures DecimalValue(Decimal(n)) == n
  {
    if n >= 10 {
      DecimalRoundTrip(n / 10);
      var r := Decimal(n);
      assert r[..|r| - 1] == Decimal(n / 10);
    }
  }

  /** `"\n".join(lines)` */
  function Unlines(lines: seq<string>): string {
    if lines == [] then ""
    else if |lines| == 1 then lines[0]
    else Unlines(lines[..|lines| - 1]) + "\n" + lines[|lines| - 1]
  }
}
