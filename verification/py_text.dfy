/**
 The pieces of Python's text handling that to_do_list.py relies on:
 `str.strip()`, reading a text file line by line, and the newline
 translation a file opened for reading in text mode applies.
 */
module PyText {

  /** `str.isspace()` of one character: the characters `strip()` removes. */
  predicate IsSpace(ch: char) {
    || ch == ' '
    || ('\t' <= ch <= '\r')
    || ('\U{1c}' <= ch <= '\U{1f}')
    || ch == '\U{85}' || ch == '\U{a0}' || ch == '\U{1680}'
    || ('\U{2000}' <= ch <= '\U{200a}')
    || ch == '\U{2028}' || ch == '\U{2029}' || ch == '\U{202f}' || ch == '\U{205f}' || ch == '\U{3000}'
  }

  predicate IsLineBreak(ch: char) {
    ch == '\n' || ch == '\r'
  }

  predicate NoLineBreak(s: string) {
    forall i | 0 <= i < |s| :: !IsLineBreak(s[i])
  }

  /** What `input()` returns: a line without its `\n`. */
  predicate NoNewline(s: string) {
    forall i | 0 <= i < |s| :: s[i] != '\n'
  }

  predicate NoCarriageReturn(s: string) {
    forall i | 0 <= i < |s| :: s[i] != '\r'
  }

  /** A `\n` may occur in `s` only as its last character. */
  predicate NewlineOnlyAtEnd(s: string) {
    forall i | 0 <= i < |s| - 1 :: s[i] != '\n'
  }

  /** Neither end of `s` is a space: `s` is its own `strip()`. */
  predicate Trimmed(s: string) {
    s == [] || (!IsSpace(s[0]) && !IsSpace(s[|s| - 1]))
  }

  /** The first index at or after `i` whose character is not a space, or the length of `s`. */
  function SkipSpaces(s: string, i: nat): (a: nat)
    requires i <= |s|
    ensures i <= a <= |s|
    ensures forall k | i <= k < a :: IsSpace(s[k])
    ensures a < |s| ==> !IsSpace(s[a])
    decreases |s| - i
  {
    if i < |s| && IsSpace(s[i]) then SkipSpaces(s, i + 1) else i
  }

  /** Where `s[lo..j]` ends once its trailing spaces are dropped. */
  function TrimEnd(s: string, lo: nat, j: nat): (b: nat)
    requires lo <= j <= |s|
    ensures lo <= b <= j
    ensures forall k | b <= k < j :: IsSpace(s[k])
    ensures b > lo ==> !IsSpace(s[b - 1])
    decreases j
  {
    if j > lo && IsSpace(s[j - 1]) then TrimEnd(s, lo, j - 1) else j
  }

  /** Where the result of `strip()` starts in `s`. */
  function StripFrom(s: string): nat {
    SkipSpaces(s, 0)
  }

  /** Where the result of `strip()` ends in `s`. */
  function StripTo(s: string): nat {
    TrimEnd(s, StripFrom(s), |s|)
  }

  /** `str.strip()`: neither end of the result is a space. */
  function Strip(s: string): (r: string)
    ensures Trimmed(r)
  {
    s[StripFrom(s)..StripTo(s)]
  }

  /**
   The result of `strip()` is the slice of `s` between its leading and its
   trailing spaces.
   */
  lemma StripSlice(s: string)
    ensures var i := StripFrom(s); var r := Strip(s);
      && i + |r| <= |s|
      && (forall k | 0 <= k < |r| :: r[k] == s[i + k])
      && (forall k | 0 <= k < i :: IsSpace(s[k]))
      && (forall k | i + |r| <= k < |s| :: IsSpace(s[k]))
  {
    assert |Strip(s)| == StripTo(s) - StripFrom(s);
  }

  lemma StripTrimmed(s: string)
    requires Trimmed(s)
    ensures Strip(s) == s
  {
  }

  lemma StripIdempotent(s: string)
    ensures Strip(Strip(s)) == Strip(s)
  {
    StripTrimmed(Strip(s));
  }

  /** Stripping keeps a text free of line breaks. */
  lemma StripNoLineBreak(s: string)
    requires NoLineBreak(s)
    ensures NoLineBreak(Strip(s))
  {
    StripSlice(s);
    var i := StripFrom(s);
    var r := Strip(s);
    forall k | 0 <= k < |r|
      ensures !IsLineBreak(r[k])
    {
      assert r[k] == s[i + k];
    }
  }

  /** A line as a text-mode file yields it strips to a text free of line breaks. */
  lemma StripReadLine(l: string)
    requires NoCarriageReturn(l) && NewlineOnlyAtEnd(l)
    ensures NoLineBreak(Strip(l))
  {
    StripSlice(l);
    var i := StripFrom(l);
    var r := Strip(l);
    forall k | 0 <= k < |r|
      ensures !IsLineBreak(r[k])
    {
      assert r[k] == l[i + k];
      assert r[k] != '\r';
      if i + k == |l| - 1 {
        assert k == |r| - 1;
        assert !IsSpace(r[k]);
      } else {
        assert r[k] != '\n';
      }
    }
  }

  /** Whatever surrounds a trimmed text, if it is all spaces, `strip()` removes exactly that. */
  lemma StripUnique(a: string, r: string, b: string)
    requires forall k | 0 <= k < |a| :: IsSpace(a[k])
    requires forall k | 0 <= k < |b| :: IsSpace(b[k])
    requires Trimmed(r)
    ensures Strip(a + r + b) == r
  {
    var s := a + r + b;
    forall k | 0 <= k < |a|
      ensures IsSpace(s[k])
    {
      assert s[k] == a[k];
    }
    forall k | |a| + |r| <= k < |s|
      ensures IsSpace(s[k])
    {
      assert s[k] == b[k - |a| - |r|];
    }
    if r == [] {
      assert StripFrom(s) == |s|;
      assert s[|s|..|s|] == [];
    } else {
      assert s[|a|] == r[0] && s[|a| + |r| - 1] == r[|r| - 1];
      assert StripFrom(s) == |a|;
      assert StripTo(s) == |a| + |r|;
      assert s[|a|..|a| + |r|] == r;
    }
  }

  /** The `\n` ending a line is stripped along with the other trailing spaces. */
  lemma StripNewline(t: string)
    ensures Strip(t + "\n") == Strip(t)
  {
    StripSlice(t);
    var i := StripFrom(t);
    var r := Strip(t);
    var a := t[..i];
    var b := t[i + |r|..];
    assert t == a + r + b;
    forall k | 0 <= k < |b + "\n"|
      ensures IsSpace((b + "\n")[k])
    {
      if k < |b| {
        assert (b + "\n")[k] == t[i + |r| + k];
      }
    }
    assert t + "\n" == a + r + (b + "\n");
    StripUnique(a, r, b + "\n");
  }

  /** A trimmed line read back with its terminating newline strips to itself. */
  lemma StripLine(t: string)
    requires Trimmed(t)
    ensures Strip(t + "\n") == t
  {
    var s := t + "\n";
    assert IsSpace(s[|t|]);
    if t == [] {
      assert SkipSpaces(s, 1) == 1;
    } else {
      assert s[0] == t[0] && s[|t| - 1] == t[|t| - 1];
      assert StripFrom(s) == 0;
      assert TrimEnd(s, 0, |t|) == |t|;
      assert s[..|t|] == t;
    }
  }

  /**
   Reading in text mode turns `\r\n` and a lone `\r` into `\n` before the
   program sees the text.
   */
  function Translate(s: string): (r: string)
    ensures NoCarriageReturn(r)
    decreases |s|
  {
    if s == [] then []
    else if s[0] == '\r' then "\n" + Translate(if |s| >= 2 && s[1] == '\n' then s[2..] else s[1..])
    else [s[0]] + Translate(s[1..])
  }

  /** The units the translation works on: `\r\n` and a lone `\r` become `\n`, anything else is kept. */
  lemma TranslateUnits(ch: char)
    ensures Translate("\r\n") == "\n"
    ensures Translate("\r") == "\n"
    ensures ch != '\r' ==> Translate([ch]) == [ch]
  {
    assert Translate("\r\n") == "\n" + Translate([]);
    assert Translate("\r") == "\n" + Translate([]);
  }

  /**
   Text translates piece by piece, unless the cut falls between the `\r` and
   the `\n` of one `\r\n`.
   */
  lemma {:induction false} TranslateAppend(a: string, b: string)
    requires !(a != [] && a[|a| - 1] == '\r' && b != [] && b[0] == '\n')
    ensures Translate(a + b) == Translate(a) + Translate(b)
    decreases |a|
  {
    if a == [] {
      assert a + b == b;
    } else {
      var ab := a + b;
      assert ab[0] == a[0];
      if a[0] != '\r' {
        assert ab[1..] == a[1..] + b;
        TranslateAppend(a[1..], b);
        assert Translate(ab) == [a[0]] + Translate(a[1..] + b);
      } else if |a| == 1 {
        TranslateLoneEnd(a, b);
      } else if a[1] == '\n' {
        assert ab[1] == '\n';
        assert ab[2..] == a[2..] + b;
        TranslateAppend(a[2..], b);
        assert Translate(ab) == "\n" + Translate(a[2..] + b);
      } else {
        assert ab[1] == a[1];
        assert ab[1..] == a[1..] + b;
        TranslateAppend(a[1..], b);
        assert Translate(ab) == "\n" + Translate(a[1..] + b);
      }
    }
  }

  lemma TranslateLoneEnd(a: string, b: string)
    requires a == "\r" && (b == [] || b[0] != '\n')
    ensures Translate(a + b) == Translate(a) + Translate(b)
  {
    assert (a + b)[1..] == b;
    assert Translate(a) == "\n" + Translate([]);
    if b != [] {
      assert (a + b)[1] == b[0];
    }
  }

  lemma {:induction false} TranslateNoCarriageReturn(s: string)
    requires NoCarriageReturn(s)
    ensures Translate(s) == s
    decreases |s|
  {
    if s != [] {
      TranslateNoCarriageReturn(s[1..]);
    }
  }

  /** The index just past the first `\n` at or after `i`, or the end of the text. */
  function LineEnd(text: string, i: nat): (n: nat)
    requires i <= |text|
    ensures i <= n <= |text|
    ensures i < |text| ==> i < n
    ensures forall k | i <= k < n - 1 :: text[k] != '\n'
    ensures n < |text| ==> text[n - 1] == '\n'
    decreases |text| - i
  {
    if i == |text| then i
    else if text[i] == '\n' then i + 1
    else LineEnd(text, i + 1)
  }

  /**
   The lines a text-mode file yields when iterated: each keeps its `\n`;
   the last may lack one. Joined back together they give the text.
   */
  function Lines(text: string): (r: seq<string>)
    ensures Join(r) == text
    ensures forall i | 0 <= i < |r| :: r[i] != [] && NewlineOnlyAtEnd(r[i])
    ensures NoCarriageReturn(text) ==> forall i | 0 <= i < |r| :: NoCarriageReturn(r[i])
    decreases |text|
  {
    if text == [] then []
    else
      var n := LineEnd(text, 0);
      assert text == text[..n] + text[n..];
      [text[..n]] + Lines(text[n..])
  }

  function Join(ls: seq<string>): string {
    if ls == [] then [] else ls[0] + Join(ls[1..])
  }

  /** A line without a newline, followed by one and more text, is read as that line first. */
  lemma LinesOfLine(t: string, rest: string)
    requires forall k | 0 <= k < |t| :: t[k] != '\n'
    ensures Lines(t + "\n" + rest) == [t + "\n"] + Lines(rest)
  {
    var text := t + "\n" + rest;
    var n := LineEnd(text, 0);
    assert text[|t|] == '\n';
    assert forall k | 0 <= k < |t| :: text[k] == t[k];
    assert n == |t| + 1;
    assert text[..n] == t + "\n";
    assert text[n..] == rest;
  }
}
