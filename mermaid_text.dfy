/** The text pieces of a Mermaid diagram: node identifiers, decimal
    numerals and the joining of lines. */
module MermaidText {

  /** The character of decimal digit `d`. */
  function DigitChar(d: nat): (c: char)
    requires d < 10
    ensures '0' <= c <= '9' && c as int - '0' as int == d
  {
    ('0' as int + d) as char
  }

  /** `str(n)` for a natural number: its decimal digits, most significant first. */
  function NatToString(n: nat): (s: string)
    ensures 1 <= |s|
    ensures forall i :: 0 <= i < |s| ==> '0' <= s[i] <= '9'
    ensures (n < 10) == (|s| == 1)
  {
    if n < 10 then [DigitChar(n)]
    else NatToString(n / 10) + [DigitChar(n % 10)]
  }

  /** Distinct numbers have distinct numerals. */
  lemma {:induction false} NatToStringInjective(a: nat, b: nat)
    requires NatToString(a) == NatToString(b)
    ensures a == b
  {
    var s := NatToString(a);
    if a >= 10 {
      assert b >= 10;
      assert s[|s| - 1] == DigitChar(a % 10) && s[|s| - 1] == DigitChar(b % 10);
      assert NatToString(a / 10) == s[..|s| - 1] == NatToString(b / 10);
      NatToStringInjective(a / 10, b / 10);
    }
  }

  /** The identifier of the node numbered `c` (from 0): a capital letter
      cycling through A..Z, followed by the number of completed cycles once
      there is at least one. */
  function IdOf(c: nat): (id: string)
    ensures 1 <= |id| && 'A' <= id[0] <= 'Z'
    ensures (c < 26) == (|id| == 1)
  {
    [(65 + c % 26) as char] + (if c >= 26 then NatToString(c / 26) else "")
  }

  /** No two nodes get the same identifier. */
  lemma IdOfInjective(a: nat, b: nat)
    requires IdOf(a) == IdOf(b)
    ensures a == b
  {
    assert a % 26 == b % 26 by {
      assert IdOf(a)[0] == IdOf(b)[0];
    }
    if a >= 26 {
      assert NatToString(a / 26) == IdOf(a)[1..] == IdOf(b)[1..] == NatToString(b / 26);
      NatToStringInjective(a / 26, b / 26);
    }
  }

  /** The first identifiers, and those after the first cycle: the 27th
      node is `A1`. */
  lemma IdOfExamples()
    ensures IdOf(0) == "A" && IdOf(1) == "B" && IdOf(25) == "Z"
    ensures IdOf(26) == "A1" && IdOf(27) == "B1" && IdOf(52) == "A2"
  {
    assert NatToString(1) == "1";
    assert NatToString(2) == "2";
  }

  /** `"\n".join(lines)`. */
  function Join(lines: seq<string>): string {
    if |lines| == 0 then ""
    else if |lines| == 1 then lines[0]
    else Join(lines[..|lines| - 1]) + "\n" + lines[|lines| - 1]
  }

  /** The joined text starts with the first line. */
  lemma {:induction false} JoinStartsWithFirst(lines: seq<string>)
    requires |lines| >= 1
    ensures lines[0] <= Join(lines)
  {
    if |lines| > 1 {
      var lines' := lines[..|lines| - 1];
      JoinStartsWithFirst(lines');
      assert Join(lines) == Join(lines') + ("\n" + lines[|lines| - 1]);
    }
  }

  /** `s.split("\n")`: the pieces between line breaks. */
  function Split(s: string): (r: seq<string>)
    ensures 1 <= |r|
  {
    if s == [] then [""]
    else
      var rest := Split(s[1..]);
      if s[0] == '\n' then [""] + rest
      else [[s[0]] + rest[0]] + rest[1..]
  }

  /** Text without a line break is one piece. */
  lemma {:induction false} SplitNoBreak(s: string)
    requires '\n' !in s
    ensures Split(s) == [s]
  {
    if s != [] {
      SplitNoBreak(s[1..]);
      assert [s[0]] + s[1..] == s;
    }
  }

  /** A line break followed by text without one adds that text as the
      last piece. */
  lemma {:induction false} SplitLine(a: string, b: string)
    requires '\n' !in b
    ensures Split(a + "\n" + b) == Split(a) + [b]
  {
    var s := a + "\n" + b;
    if a == [] {
      assert s[1..] == b;
      SplitNoBreak(b);
      assert Split(s) == [""] + [b];
    } else {
      assert s[1..] == a[1..] + "\n" + b;
      SplitLine(a[1..], b);
      var rest := Split(a[1..]);
      if a[0] == '\n' {
        assert Split(a) == [""] + rest;
      } else {
        assert Split(s) == [[a[0]] + (rest + [b])[0]] + (rest + [b])[1..];
        assert Split(a) == [[a[0]] + rest[0]] + rest[1..];
      }
    }
  }

  /** Joining lines without line breaks and splitting the result gives the
      lines back. */
  lemma {:induction false} SplitJoin(lines: seq<string>)
    requires 1 <= |lines|
    requires forall i :: 0 <= i < |lines| ==> '\n' !in lines[i]
    ensures Split(Join(lines)) == lines
  {
    if |lines| == 1 {
      SplitNoBreak(lines[0]);
    } else {
      var init := lines[..|lines| - 1];
      SplitJoin(init);
      SplitLine(Join(init), lines[|lines| - 1]);
      assert init + [lines[|lines| - 1]] == lines;
    }
  }
}
