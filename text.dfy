/**
 * The few pieces of Java's string library that the maze file format relies on:
 * `String.split("\\s+")`, `Integer.parseInt` and the `%d` conversion of `printf`.
 */
module Text {
  import opened Results

  /** The characters matched by the regular-expression class `\s`. */
  predicate IsSpace(ch: char) {
    ch == ' ' || ch == '\t' || ch == '\n' || ch == '\U{000B}' || ch == '\U{000C}' || ch == '\r'
  }

  predicate NoSpace(s: string) {
    forall i :: 0 <= i < |s| ==> !IsSpace(s[i])
  }

  /** The index of the first whitespace character of `s`, or `|s|` if there is none. */
  function FirstSpace(s: string): (k: nat)
    ensures k <= |s| && NoSpace(s[..k])
    ensures k < |s| ==> IsSpace(s[k])
    ensures NoSpace(s) ==> k == |s|
  {
    if s == [] || IsSpace(s[0]) then 0
    else
      var k := 1 + FirstSpace(s[1..]);
      assert s[..k] == [s[0]] + s[1..][..k - 1];
      k
  }

  /** `s` without its leading run of whitespace. */
  function SkipSpaces(s: string): (t: string)
    ensures |t| <= |s| && t == s[|s| - |t|..]
    ensures t != [] ==> !IsSpace(t[0])
  {
    if s != [] && IsSpace(s[0]) then SkipSpaces(s[1..]) else s
  }

  /**
   * The pieces of `s` between maximal runs of whitespace. A run at the start
   * gives an empty first piece and a run at the end an empty last piece.
   */
  function Fields(s: string): (r: seq<string>)
    ensures |r| >= 1
    ensures forall i :: 0 <= i < |r| ==> NoSpace(r[i])
    ensures forall i :: 0 < i < |r| - 1 ==> r[i] != ""
    ensures s != [] && !IsSpace(s[0]) ==> r[0] != ""
    decreases |s|
  {
    var k := FirstSpace(s);
    if k == |s| then
      assert s[..k] == s;
      [s]
    else
      [s[..k]] + Fields(SkipSpaces(s[k + 1..]))
  }

  /** `r` without its trailing empty strings. */
  function DropTrailingEmpty(r: seq<string>): (t: seq<string>)
    ensures |t| <= |r| && t == r[..|t|]
    ensures t != [] ==> t[|t| - 1] != ""
  {
    if r != [] && r[|r| - 1] == "" then DropTrailingEmpty(r[..|r| - 1]) else r
  }

  /**
   * `s.split("\\s+")`: the whitespace-separated tokens of `s`, trailing empty
   * tokens removed; a line that starts with whitespace has an empty first
   * token, and the empty line splits into the single empty token.
   */
  function Split(s: string): (r: seq<string>)
    ensures forall i :: 0 <= i < |r| ==> NoSpace(r[i])
    ensures forall i :: 0 < i < |r| ==> r[i] != ""
    ensures s != [] && !IsSpace(s[0]) ==> forall i :: 0 <= i < |r| ==> r[i] != ""
    ensures s != [] && IsSpace(s[0]) ==> r == [] || r[0] == ""
    ensures IsWord(s) ==> r == [s]
    ensures s == [] ==> r == [""]
  {
    if s == "" then [""] else DropTrailingEmpty(Fields(s))
  }

  predicate IsDigit(ch: char) {
    '0' <= ch <= '9'
  }

  predicate AllDigits(s: string) {
    forall i :: 0 <= i < |s| ==> IsDigit(s[i])
  }

  function DigitValue(ch: char): nat
    requires IsDigit(ch)
  {
    ch as int - '0' as int
  }

  /** The value of a string of decimal digits, most significant first. */
  function DigitsValue(s: string): nat
    requires AllDigits(s)
  {
    if s == [] then 0 else DigitsValue(s[..|s| - 1]) * 10 + DigitValue(s[|s| - 1])
  }

  /** `Integer.parseInt`: an optional sign followed by one or more decimal digits. */
  /** A run of decimal digits, optionally after one `+` or `-` sign. */
  predicate IsNumeral(t: string) {
    (t != "" && AllDigits(t)) || (|t| >= 2 && (t[0] == '-' || t[0] == '+') && AllDigits(t[1..]))
  }

  function ParseInt(t: string): (r: Option<int>)
    ensures r.Some? ==> t != "" && NoSpace(t)
    ensures r.Some? <==> IsNumeral(t)
    ensures r.Some? && t[0] != '-' ==> r.value >= 0
    ensures r.Some? && t[0] == '-' ==> r.value <= 0
  {
    if |t| >= 2 && (t[0] == '-' || t[0] == '+') && AllDigits(t[1..]) then
      var v: int := DigitsValue(t[1..]);
      Some(if t[0] == '-' then -v else v)
    else if |t| >= 1 && AllDigits(t) then
      Some(DigitsValue(t))
    else
      None
  }

  function DigitChar(d: nat): (ch: char)
    requires d < 10
    ensures IsDigit(ch) && DigitValue(ch) == d
  {
    ('0' as int + d) as char
  }

  /** `String.format("%d", n)` for a non-negative `n`. */
  function NatStr(n: nat): (s: string)
    ensures |s| >= 1 && AllDigits(s) && IsWord(s)
  {
    if n < 10 then [DigitChar(n)] else NatStr(n / 10) + [DigitChar(n % 10)]
  }

  /** Reading back a printed number gives the number. */
  lemma {:induction false} DigitsOfNatStr(n: nat)
    ensures DigitsValue(NatStr(n)) == n
  {
    var s := NatStr(n);
    if n < 10 {
      assert s[..0] == [];
    } else {
      DigitsOfNatStr(n / 10);
      assert s[..|s| - 1] == NatStr(n / 10);
    }
  }

  lemma ParseNatStr(n: nat)
    ensures ParseInt(NatStr(n)) == Some(n)
  {
    DigitsOfNatStr(n);
  }

  /** A minus sign before the digits negates the value read. */
  lemma ParseNegNatStr(n: nat)
    ensures ParseInt("-" + NatStr(n)) == Some(-(n as int))
  {
    DigitsOfNatStr(n);
    assert ("-" + NatStr(n))[1..] == NatStr(n);
  }

  /** Words separated by single spaces. */
  function Join(ws: seq<string>): string
    requires |ws| >= 1
  {
    if |ws| == 1 then ws[0] else ws[0] + " " + Join(ws[1..])
  }

  predicate IsWord(s: string) {
    s != "" && NoSpace(s)
  }

  lemma {:induction false} FirstSpaceOfWord(a: string, rest: string)
    requires NoSpace(a)
    ensures FirstSpace(a) == |a|
    ensures FirstSpace(a + " " + rest) == |a|
  {
    if a != [] {
      FirstSpaceOfWord(a[1..], rest);
      assert (a + " " + rest)[1..] == a[1..] + " " + rest;
    }
  }

  lemma FieldsCons(a: string, rest: string)
    requires IsWord(a) && rest != "" && !IsSpace(rest[0])
    ensures Fields(a + " " + rest) == [a] + Fields(rest)
  {
    var s := a + " " + rest;
    FirstSpaceOfWord(a, rest);
    assert s[..|a|] == a;
    assert s[|a| + 1..] == rest;
  }

  lemma {:induction false} FieldsJoin(ws: seq<string>)
    requires |ws| >= 1 && forall i :: 0 <= i < |ws| ==> IsWord(ws[i])
    ensures Fields(Join(ws)) == ws
  {
    if |ws| == 1 {
      FirstSpaceOfWord(ws[0], "");
      assert ws[0][..|ws[0]|] == ws[0];
    } else {
      var rest := Join(ws[1..]);
      JoinStartsWithWord(ws[1..]);
      FieldsCons(ws[0], rest);
      FieldsJoin(ws[1..]);
      assert ws == [ws[0]] + ws[1..];
    }
  }

  lemma JoinStartsWithWord(ws: seq<string>)
    requires |ws| >= 1 && forall i :: 0 <= i < |ws| ==> IsWord(ws[i])
    ensures IsWord(ws[0]) && Join(ws) != "" && Join(ws)[0] == ws[0][0]
  {
  }

  /** Splitting words joined by single spaces gives the words back. */
  lemma SplitJoin(ws: seq<string>)
    requires |ws| >= 1 && forall i :: 0 <= i < |ws| ==> IsWord(ws[i])
    ensures Split(Join(ws)) == ws
  {
    FieldsJoin(ws);
    JoinStartsWithWord(ws);
  }
}
