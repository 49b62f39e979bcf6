/** The lexical layer of the text edge-list format shared by the parser and
    the serializer: splitting text into lines, a line into white-space
    separated tokens, and reading and writing decimal numbers. */
module TextFormat {
  import opened Wrappers
  import opened Strings

  // Lines.

  predicate IsBreak(c: char) {
    c == '\r' || c == '\n'
  }

  predicate NoBreaks(s: string) {
    forall i :: 0 <= i < |s| ==> !IsBreak(s[i])
  }

  /** `text.split(/\r\n|\r|\n/)`: a "\r\n" pair is one separator. */
  function SplitLines(text: string): (lines: seq<string>)
    ensures |lines| >= 1
    ensures forall k :: 0 <= k < |lines| ==> NoBreaks(lines[k])
    decreases |text|
  {
    if text == [] then [""]
    else if text[0] == '\r' && |text| > 1 && text[1] == '\n' then [""] + SplitLines(text[2..])
    else if IsBreak(text[0]) then [""] + SplitLines(text[1..])
    else
      var rest := SplitLines(text[1..]);
      var first := [text[0]] + rest[0];
      assert NoBreaks(first) by {
        assert forall i :: 1 <= i < |first| ==> first[i] == rest[0][i - 1];
      }
      [first] + rest[1..]
  }

  /** Text without line breaks is a single line. */
  lemma {:induction false} SplitPlain(a: string)
    requires NoBreaks(a)
    ensures SplitLines(a) == [a]
    decreases |a|
  {
    if a != [] {
      SplitPlain(a[1..]);
      assert [a[0]] + a[1..] == a;
    }
  }

  /** A line without breaks followed by "\n" is split off as it is. */
  lemma {:induction false} SplitFirst(a: string, b: string)
    requires NoBreaks(a)
    ensures SplitLines(a + "\n" + b) == [a] + SplitLines(b)
    decreases |a|
  {
    var t := a + "\n" + b;
    if a == [] {
      assert t[1..] == b;
    } else {
      assert t[1..] == a[1..] + "\n" + b;
      SplitFirst(a[1..], b);
      assert [a[0]] + a[1..] == a;
    }
  }

  lemma {:induction false} JoinCons(a: string, rest: seq<string>, sep: string)
    requires rest != []
    ensures Join([a] + rest, sep) == a + sep + Join(rest, sep)
    decreases |rest|
  {
    if |rest| > 1 {
      var init := rest[..|rest| - 1];
      JoinCons(a, init, sep);
      assert ([a] + rest)[..|rest|] == [a] + init;
    } else {
      assert ([a] + rest)[..1] == [a];
    }
  }

  /** Splitting undoes joining with "\n" when no line holds a break. */
  lemma {:induction false} SplitJoin(lines: seq<string>)
    requires lines != [] && forall k :: 0 <= k < |lines| ==> NoBreaks(lines[k])
    ensures SplitLines(Join(lines, "\n")) == lines
    decreases |lines|
  {
    if |lines| == 1 {
      SplitPlain(lines[0]);
    } else {
      var rest := lines[1..];
      JoinCons(lines[0], rest, "\n");
      assert [lines[0]] + rest == lines;
      SplitFirst(lines[0], Join(rest, "\n"));
      SplitJoin(rest);
    }
  }

  // Words.

  predicate NoSpace(s: string) {
    forall i :: 0 <= i < |s| ==> !IsSpace(s[i])
  }

  /** The maximal runs of non-space characters of `s`, in order: the tokens
      `(\S+)` can capture. */
  function Words(s: string): (ws: seq<string>)
    ensures s != [] && !IsSpace(s[0]) ==> ws != []
  {
    if s == [] then []
    else if IsSpace(s[0]) then Words(s[1..])
    else
      var r := Words(s[1..]);
      if |s| > 1 && !IsSpace(s[1]) then [[s[0]] + r[0]] + r[1..] else [[s[0]]] + r
  }

  /** A word that ends where white space or the text ends comes out whole. */
  lemma {:induction false} WordsCons(a: string, rest: string)
    requires a != [] && NoSpace(a) && (rest == [] || IsSpace(rest[0]))
    ensures Words(a + rest) == [a] + Words(rest)
    decreases |a|
  {
    var t := a + rest;
    assert t[0] == a[0] && t[1..] == a[1..] + rest;
    if |a| == 1 {
      assert t[1..] == rest && a == [a[0]];
      assert |t| > 1 ==> t[1] == rest[0];
    } else {
      WordsCons(a[1..], rest);
      assert t[1] == a[1];
      assert [a[0]] + a[1..] == a;
    }
  }

  /** Every word is a non-empty run of non-space characters. */
  lemma {:induction false} WordsShape(s: string)
    ensures forall k :: 0 <= k < |Words(s)| ==> Words(s)[k] != [] && NoSpace(Words(s)[k])
    decreases |s|
  {
    if s != [] {
      WordsShape(s[1..]);
    }
  }

  /** Leading white space does not change the words. */
  lemma {:induction false} WordsSkip(sp: string, s: string)
    requires forall i :: 0 <= i < |sp| ==> IsSpace(sp[i])
    ensures Words(sp + s) == Words(s)
    decreases |sp|
  {
    if sp != [] {
      var t := sp + s;
      assert t[0] == sp[0] && t[1..] == sp[1..] + s;
      WordsSkip(sp[1..], s);
    } else {
      assert sp + s == s;
    }
  }

  lemma OneWord(c: string)
    requires c != [] && NoSpace(c)
    ensures Words(c) == [c]
  {
    WordsCons(c, []);
    assert c + [] == c;
    assert Words([]) == [];
  }

  /** A word, white space, and the rest: the word, then the rest's words. */
  lemma WordThenRest(a: string, sp: string, rest: string)
    requires a != [] && NoSpace(a)
    requires sp != [] && forall i :: 0 <= i < |sp| ==> IsSpace(sp[i])
    ensures Words(a + sp + rest) == [a] + Words(rest)
  {
    var tail := sp + rest;
    assert a + sp + rest == a + tail;
    assert tail[0] == sp[0];
    WordsCons(a, tail);
    WordsSkip(sp, rest);
  }

  /** Three words separated by white space are exactly the three words. */
  lemma ThreeWords(a: string, s1: string, b: string, s2: string, c: string)
    requires a != [] && NoSpace(a) && b != [] && NoSpace(b) && c != [] && NoSpace(c)
    requires s1 != [] && forall i :: 0 <= i < |s1| ==> IsSpace(s1[i])
    requires s2 != [] && forall i :: 0 <= i < |s2| ==> IsSpace(s2[i])
    ensures Words(a + s1 + b + s2 + c) == [a, b, c]
  {
    var rest := b + s2 + c;
    assert a + s1 + b + s2 + c == a + s1 + rest;
    WordThenRest(a, s1, rest);
    WordThenRest(b, s2, c);
    OneWord(c);
    var ws := Words(rest);
    assert ws == [b, c];
    assert [a] + ws == [a, b, c];
  }

  // Names and numbers.

  predicate IsVertexChar(c: char) {
    ('a' <= c <= 'z') || ('A' <= c <= 'Z') || IsDigit(c) || c == '_'
  }

  /** `/^[a-zA-Z0-9_]+$/`. */
  predicate IsVertexName(s: string) {
    |s| > 0 && forall i :: 0 <= i < |s| ==> IsVertexChar(s[i])
  }

  /** `/^[\d.]+$/`. */
  predicate IsDecimalText(s: string) {
    |s| > 0 && forall i :: 0 <= i < |s| ==> IsDigit(s[i]) || s[i] == '.'
  }

  /** The longest prefix of decimal digits. */
  function DigitPrefix(s: string): (d: string)
    ensures |d| <= |s| && d == s[..|d|]
    ensures forall i :: 0 <= i < |d| ==> IsDigit(d[i])
    ensures |d| < |s| ==> !IsDigit(s[|d|])
  {
    if s == [] || !IsDigit(s[0]) then []
    else
      var d := [s[0]] + DigitPrefix(s[1..]);
      assert forall i :: 1 <= i < |d| ==> d[i] == DigitPrefix(s[1..])[i - 1];
      d
  }

  function Pow10(n: nat): (p: nat)
    ensures p >= 1
  {
    if n == 0 then 1 else 10 * Pow10(n - 1)
  }

  /** `parseFloat` on a text of digits and dots: the longest prefix of the
      form digits, then optionally a dot and more digits; `None` (NaN) when
      that prefix holds no digit. */
  function ParseDecimal(s: string): (r: Option<real>)
    ensures r.Some? ==> r.value >= 0.0
    ensures s != [] && IsDigit(s[0]) ==> r.Some?
  {
    var a := DigitPrefix(s);
    var rest := s[|a|..];
    var b := if rest != [] && rest[0] == '.' then DigitPrefix(rest[1..]) else [];
    if a == [] && b == [] then None
    else Some(DigitsValue(a) as real + DigitsValue(b) as real / Pow10(|b|) as real)
  }

  lemma AllDigitsPrefix(s: string)
    requires forall i :: 0 <= i < |s| ==> IsDigit(s[i])
    ensures DigitPrefix(s) == s
  {
    var d := DigitPrefix(s);
    if |d| < |s| {
      assert false;
    }
  }

  /** A natural number printed by `toString` parses back to itself. */
  lemma ParseNatText(n: nat)
    ensures ParseDecimal(NatToString(n)) == Some(n as real)
  {
    var s := NatToString(n);
    AllDigitsPrefix(s);
    NatToStringValue(n);
    assert s[|s|..] == [];
  }
}
