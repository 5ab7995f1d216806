/**
 * The handful of Python string operations the discovery scan relies on:
 * `str.rstrip()`, `str.splitlines()`, `str.find()`, `str()` of a
 * non-negative integer and `str()` of a `bytes` value. Strings are
 * sequences of Unicode scalar values.
 */
module Text {

  /** Python's `str.isspace()` for a single character. */
  predicate IsSpace(ch: char) {
    || ch == ' '
    || ('\t' <= ch <= '\r')
    || ('\U{1C}' <= ch <= '\U{1F}')
    || ch == '\U{85}' || ch == '\U{A0}' || ch == '\U{1680}'
    || ('\U{2000}' <= ch <= '\U{200A}')
    || ch == '\U{2028}' || ch == '\U{2029}' || ch == '\U{202F}'
    || ch == '\U{205F}' || ch == '\U{3000}'
  }

  /** `s.rstrip()`: drop every trailing whitespace character, and nothing else. */
  function Rstrip(s: string): (r: string)
    ensures r <= s
    ensures r == [] || !IsSpace(r[|r| - 1])
    ensures forall i :: |r| <= i < |s| ==> IsSpace(s[i])
    decreases |s|
  {
    if s != [] && IsSpace(s[|s| - 1]) then Rstrip(s[..|s| - 1]) else s
  }

  /** The characters at which `str.splitlines()` ends a line. */
  predicate IsLineBreak(ch: char) {
    || ch == '\n' || ch == '\r' || ch == '\U{0B}' || ch == '\U{0C}'
    || ch == '\U{1C}' || ch == '\U{1D}' || ch == '\U{1E}'
    || ch == '\U{85}' || ch == '\U{2028}' || ch == '\U{2029}'
  }

  predicate NoBreak(line: string) {
    forall k :: 0 <= k < |line| ==> !IsLineBreak(line[k])
  }

  /** Index of the first line break of `s`, or `|s|` when there is none. */
  function LineEnd(s: string): (i: nat)
    ensures i <= |s|
    ensures i < |s| ==> IsLineBreak(s[i])
    ensures NoBreak(s[..i])
    decreases |s|
  {
    if s == [] || IsLineBreak(s[0]) then 0 else 1 + LineEnd(s[1..])
  }

  /**
   * `s.splitlines()`: the lines of `s` without their terminators, where
   * "\r\n" is one terminator and a final terminator opens no empty line.
   */
  function SplitLines(s: string): (lines: seq<string>)
    ensures forall i :: 0 <= i < |lines| ==> NoBreak(lines[i])
    ensures s == [] <==> lines == []
    decreases |s|
  {
    if s == [] then []
    else
      var i := LineEnd(s);
      if i == |s| then [s]
      else
        var next := if s[i] == '\r' && i + 1 < |s| && s[i + 1] == '\n' then i + 2 else i + 1;
        [s[..i]] + SplitLines(s[next..])
  }

  /** `"\n".join(lines)`. */
  function JoinLines(lines: seq<string>): string
    decreases |lines|
  {
    if |lines| == 0 then ""
    else if |lines| == 1 then lines[0]
    else lines[0] + "\n" + JoinLines(lines[1..])
  }

  /** A break-free line followed by "\n" and a non-empty rest splits off as the first line. */
  lemma SplitLinesCons(l0: string, rest: string)
    requires NoBreak(l0) && rest != []
    ensures SplitLines(l0 + "\n" + rest) == [l0] + SplitLines(rest)
  {
    var s := l0 + "\n" + rest;
    var i := LineEnd(s);
    assert s[|l0|] == '\n';
    assert i == |l0|;
    assert s[..i] == l0;
    assert s[i + 1..] == rest;
  }

  /**
   * Splitting undoes joining: lines free of break characters, the last of
   * them non-empty, come back unchanged from `"\n".join` then `splitlines`.
   */
  lemma {:induction false} SplitJoinLines(lines: seq<string>)
    requires forall i :: 0 <= i < |lines| ==> NoBreak(lines[i])
    requires lines != [] ==> lines[|lines| - 1] != []
    ensures SplitLines(JoinLines(lines)) == lines
    decreases |lines|
  {
    if |lines| == 1 {
      assert JoinLines(lines) == lines[0];
    } else if |lines| > 1 {
      var tail := lines[1..];
      assert tail[|tail| - 1] == lines[|lines| - 1];
      SplitJoinLines(tail);
      JoinLinesNonEmpty(tail);
      SplitLinesCons(lines[0], JoinLines(tail));
      assert lines == [lines[0]] + tail;
    }
  }

  lemma {:induction false} JoinLinesNonEmpty(lines: seq<string>)
    requires lines != [] && lines[|lines| - 1] != []
    ensures JoinLines(lines) != []
  {
    if |lines| > 1 {
      assert |JoinLines(lines)| >= |lines[0]| + 1;
    }
  }

  /** `pat` occurs in `s` at index `j`. */
  predicate OccursAt(s: string, pat: string, j: int) {
    0 <= j && j + |pat| <= |s| && s[j..j + |pat|] == pat
  }

  function FindFrom(s: string, pat: string, from: nat): int
    requires from <= |s|
    decreases |s| - from
  {
    if OccursAt(s, pat, from) then from
    else if from == |s| then -1
    else FindFrom(s, pat, from + 1)
  }

  lemma {:induction false} FindFromFirst(s: string, pat: string, from: nat)
    requires from <= |s|
    ensures var r := FindFrom(s, pat, from);
            && (r == -1 || (from <= r && OccursAt(s, pat, r)))
            && (forall j :: from <= j && (r == -1 || j < r) ==> !OccursAt(s, pat, j))
    decreases |s| - from
  {
    if !OccursAt(s, pat, from) && from < |s| {
      FindFromFirst(s, pat, from + 1);
    }
  }

  /** `s.find(pat)`: the lowest index at which `pat` occurs in `s`, or -1. */
  function Find(s: string, pat: string): int {
    FindFrom(s, pat, 0)
  }

  /** Find returns the first occurrence, and -1 exactly when there is none. */
  lemma FindFirst(s: string, pat: string)
    ensures var r := Find(s, pat);
            && (r == -1 || OccursAt(s, pat, r))
            && (forall j :: 0 <= j && (r == -1 || j < r) ==> !OccursAt(s, pat, j))
  {
    FindFromFirst(s, pat, 0);
  }

  predicate IsDigit(ch: char) {
    '0' as int <= ch as int <= '9' as int
  }

  function DigitChar(d: nat): (ch: char)
    requires d < 10
    ensures IsDigit(ch)
  {
    ('0' as int + d) as char
  }

  /** The value of a string of decimal digits. */
  function DigitsValue(s: string): nat
    requires forall i :: 0 <= i < |s| ==> IsDigit(s[i])
    decreases |s|
  {
    if s == [] then 0
    else
      assert IsDigit(s[|s| - 1]);
      DigitsValue(s[..|s| - 1]) * 10 + (s[|s| - 1] as int - '0' as int)
  }

  /** `str(n)` for a non-negative integer: its decimal digits, no leading zero. */
  function NatToString(n: nat): (s: string)
    ensures |s| >= 1
    ensures forall i :: 0 <= i < |s| ==> IsDigit(s[i])
    ensures s[0] == '0' ==> n == 0
    decreases n
  {
    if n < 10 then [DigitChar(n)] else NatToString(n / 10) + [DigitChar(n % 10)]
  }

  /** Reading the digits back gives the number: `int(str(n)) == n`. */
  lemma {:induction false} NatToStringValue(n: nat)
    ensures DigitsValue(NatToString(n)) == n
    decreases n
  {
    var s := NatToString(n);
    if n >= 10 {
      NatToStringValue(n / 10);
      assert s[..|s| - 1] == NatToString(n / 10);
    } else {
      assert s[..|s| - 1] == [];
    }
  }

  /** Distinct numbers print differently. */
  lemma NatToStringInjective(a: nat, b: nat)
    requires NatToString(a) == NatToString(b)
    ensures a == b
  {
    NatToStringValue(a);
    NatToStringValue(b);
  }
  /** A byte of a Python `bytes` value. */
  type Byte = b: int | 0 <= b < 256

  /** Bytes read one character per byte (their Latin-1 reading). */
  function BytesText(bs: seq<Byte>): string {
    seq(|bs|, i requires 0 <= i < |bs| => bs[i] as char)
  }

  const HexDigits := "0123456789abcdef"

  /**
   * How `repr` writes one byte between quotes `quote`: the quote and the
   * backslash behind a backslash, tab, newline and carriage return as `\t`,
   * `\n`, `\r`, other bytes outside printable ASCII as `\xhh`, the rest as
   * they are.
   */
  function EscapeByte(b: Byte, quote: char): string {
    if b == quote as int || b == '\\' as int then ['\\', b as char]
    else if b == '\t' as int then "\\t"
    else if b == '\n' as int then "\\n"
    else if b == '\r' as int then "\\r"
    else if b < 0x20 || b >= 0x7f then ['\\', 'x', HexDigits[b / 16], HexDigits[b % 16]]
    else [b as char]
  }

  function EscapeBytes(bs: seq<Byte>, quote: char): string
    decreases |bs|
  {
    if bs == [] then [] else EscapeByte(bs[0], quote) + EscapeBytes(bs[1..], quote)
  }

  /** `repr` quotes with `"` when the bytes hold a `'` and no `"`, and with `'` otherwise. */
  function ReprQuote(bs: seq<Byte>): char {
    if '\'' as int in bs && '"' as int !in bs then '"' else '\''
  }

  /** `str(b)` of a `bytes` value in Python 3, which is its `repr`: `b'...'`. */
  function BytesRepr(bs: seq<Byte>): string {
    var q := ReprQuote(bs);
    "b" + [q] + EscapeBytes(bs, q) + [q]
  }

  /** The characters that can stand after the first character of an escape. */
  predicate EscapeTail(c: char) {
    || c == '\\' || c == '\'' || c == '"' || c == 't' || c == 'n' || c == 'r' || c == 'x'
    || ('0' <= c <= '9') || ('a' <= c <= 'f')
  }

  /**
   * An escape is the byte itself, printable and neither the quote nor a
   * backslash, or it starts with a backslash.
   */
  lemma EscapeByteHead(b: Byte, quote: char)
    ensures var e := EscapeByte(b, quote);
            && 1 <= |e|
            && (e[0] != '\\' ==> e == [b as char] && 0x20 <= b < 0x7f && b != quote as int && b != '\\' as int)
  {
  }

  /** After its first character an escape holds only escape characters. */
  lemma EscapeByteTail(b: Byte, quote: char)
    requires quote == '\'' || quote == '"'
    ensures var e := EscapeByte(b, quote);
            forall k :: 1 <= k < |e| ==> EscapeTail(e[k])
  {
    if b < 0x20 || b >= 0x7f {
      assert EscapeTail(HexDigits[b / 16]) && EscapeTail(HexDigits[b % 16]);
    }
  }

  /** The quote appears in an escape only as the escape of the quote itself. */
  lemma EscapeByteQuote(b: Byte, quote: char)
    requires quote == '\'' || quote == '"'
    ensures quote in EscapeByte(b, quote) ==> EscapeByte(b, quote) == ['\\', quote]
  {
    if b < 0x20 || b >= 0x7f {
      assert HexDigits[b / 16] != quote && HexDigits[b % 16] != quote;
    }
  }

  lemma {:induction false} EscapeBytesAppend(a: seq<Byte>, b: seq<Byte>, quote: char)
    ensures EscapeBytes(a + b, quote) == EscapeBytes(a, quote) + EscapeBytes(b, quote)
    decreases |a|
  {
    if a == [] {
      assert a + b == b;
    } else {
      assert (a + b)[1..] == a[1..] + b;
      EscapeBytesAppend(a[1..], b, quote);
    }
  }

  /** Reading bytes as text commutes with taking off the first byte. */
  lemma BytesTextCons(bs: seq<Byte>)
    requires bs != []
    ensures BytesText(bs) == [bs[0] as char] + BytesText(bs[1..])
  {
  }

  /** An occurrence in `t` is one in `c` followed by `t`, one place on. */
  lemma OccursAtCons(c: char, t: string, pat: string, i: nat)
    requires OccursAt(t, pat, i)
    ensures OccursAt([c] + t, pat, i + 1)
  {
    assert ([c] + t)[i + 1..i + 1 + |pat|] == t[i..i + |pat|];
  }

  /** Bytes that need no escape are written as they are. */
  lemma {:induction false} EscapePlain(bs: seq<Byte>, quote: char)
    requires forall i :: 0 <= i < |bs| ==> 0x20 <= bs[i] < 0x7f && bs[i] != quote as int && bs[i] != '\\' as int
    ensures EscapeBytes(bs, quote) == BytesText(bs)
    decreases |bs|
  {
    if bs != [] {
      EscapePlain(bs[1..], quote);
      BytesTextCons(bs);
    }
  }

  /** A text free of backslashes that starts the escaped bytes also starts the bytes. */
  lemma {:induction false} EscapedPrefix(bs: seq<Byte>, quote: char, m: string)
    requires quote == '\'' || quote == '"'
    requires '\\' !in m
    requires m <= EscapeBytes(bs, quote)
    ensures m <= BytesText(bs)
    decreases |m|
  {
    if m != [] {
      var e := EscapeByte(bs[0], quote);
      EscapeByteHead(bs[0], quote);
      assert m[0] == e[0];
      assert '\\' !in m[1..] by {
        forall j | 0 <= j < |m[1..]| ensures m[1..][j] != '\\' {
          assert m[1..][j] == m[j + 1];
        }
      }
      EscapedPrefix(bs[1..], quote, m[1..]);
      BytesTextCons(bs);
    }
  }

  /**
   * A text not starting with an escape character does not start inside
   * the first escape: it starts at the front or past that escape.
   */
  lemma EscapedStart(bs: seq<Byte>, quote: char, m: string, p: nat)
    requires quote == '\'' || quote == '"'
    requires bs != [] && m != [] && !EscapeTail(m[0])
    requires OccursAt(EscapeBytes(bs, quote), m, p)
    ensures p == 0 || p >= |EscapeByte(bs[0], quote)|
  {
    var e := EscapeByte(bs[0], quote);
    EscapeByteTail(bs[0], quote);
    var s := EscapeBytes(bs, quote);
    assert s == e + EscapeBytes(bs[1..], quote);
    assert s[p] == m[0];
  }

  /** An occurrence past the first escape is an occurrence in the escapes of the other bytes. */
  lemma EscapedPastFirst(bs: seq<Byte>, quote: char, m: string, p: nat)
    requires bs != []
    requires OccursAt(EscapeBytes(bs, quote), m, p) && p >= |EscapeByte(bs[0], quote)|
    ensures OccursAt(EscapeBytes(bs[1..], quote), m, p - |EscapeByte(bs[0], quote)|)
  {
    var s := EscapeBytes(bs, quote);
    var e := EscapeByte(bs[0], quote);
    var rest := EscapeBytes(bs[1..], quote);
    assert s == e + rest;
    assert rest[p - |e|..p - |e| + |m|] == s[p..p + |m|];
  }

  /**
   * A text free of backslashes, not starting with an escape character,
   * that occurs in the escaped bytes occurs in the bytes.
   */
  lemma {:induction false} EscapedOccurrence(bs: seq<Byte>, quote: char, m: string, p: nat)
    requires quote == '\'' || quote == '"'
    requires m != [] && '\\' !in m && !EscapeTail(m[0])
    requires OccursAt(EscapeBytes(bs, quote), m, p)
    ensures exists i :: OccursAt(BytesText(bs), m, i)
    decreases |bs|
  {
    EscapedStart(bs, quote, m, p);
    if p == 0 {
      assert m <= EscapeBytes(bs, quote);
      EscapedPrefix(bs, quote, m);
      assert OccursAt(BytesText(bs), m, 0);
    } else {
      EscapedPastFirst(bs, quote, m, p);
      EscapedOccurrence(bs[1..], quote, m, p - |EscapeByte(bs[0], quote)|);
      var i :| OccursAt(BytesText(bs[1..]), m, i);
      OccursAtCons(bs[0] as char, BytesText(bs[1..]), m, i);
      BytesTextCons(bs);
    }
  }

  /** The quote character appears in the escaped bytes only right after a backslash. */
  lemma {:induction false} QuoteEscaped(bs: seq<Byte>, quote: char, k: nat)
    requires quote == '\'' || quote == '"'
    requires k < |EscapeBytes(bs, quote)|
    ensures EscapeBytes(bs, quote)[k] == quote ==> 1 <= k && EscapeBytes(bs, quote)[k - 1] == '\\'
    decreases |bs|
  {
    EscapeByteQuote(bs[0], quote);
    var e := EscapeByte(bs[0], quote);
    var rest := EscapeBytes(bs[1..], quote);
    var s := EscapeBytes(bs, quote);
    assert s == e + rest;
    if k < |e| {
      assert e[k] == quote ==> quote in e;
    } else {
      QuoteEscaped(bs[1..], quote, k - |e|);
      assert s[k] == rest[k - |e|];
      assert k - |e| >= 1 ==> s[k - 1] == rest[k - |e| - 1];
    }
  }

  /**
   * The texts `ReprOccurs` is about: printable, holding a single quote at
   * `k` but no backslash or double quote, starting with a character no
   * escape continues with, and not ending with a quote.
   */
  predicate ReprSearchable(m: string, k: nat) {
    && k < |m| && m[k] == '\''
    && Printable(m)
    && !EscapeTail(m[0]) && m[|m| - 1] != '\''
  }

  /** Printable text with no backslash or double quote: `repr` shows it as it is, unless it quotes with `'`. */
  predicate Printable(m: string) {
    forall j :: 0 <= j < |m| ==> ' ' <= m[j] <= '~' && m[j] != '\\' && m[j] != '"'
  }

  lemma PrintableAppend(a: string, b: string)
    requires Printable(a) && Printable(b)
    ensures Printable(a + b)
  {
    forall j | 0 <= j < |a + b|
      ensures ' ' <= (a + b)[j] <= '~' && (a + b)[j] != '\\' && (a + b)[j] != '"'
    {
      if j >= |a| {
        assert (a + b)[j] == b[j - |a|];
      }
    }
  }

  /** Such a text found in `str(b)` lies between the quotes. */
  lemma ReprInner(bs: seq<Byte>, m: string, k: nat, p: nat)
    requires ReprSearchable(m, k)
    requires OccursAt(BytesRepr(bs), m, p)
    ensures 2 <= p && OccursAt(EscapeBytes(bs, ReprQuote(bs)), m, p - 2)
  {
    var q := ReprQuote(bs);
    var s := EscapeBytes(bs, q);
    var r := BytesRepr(bs);
    assert r == "b" + [q] + s + [q];
    assert r[p] == m[0];
    assert r[p + |m| - 1] == m[|m| - 1];
    assert s[p - 2..p - 2 + |m|] == r[p..p + |m|];
  }

  /** Found in `str(b)`: then the bytes hold the text and no double quote. */
  lemma ReprOccursOnlyUnquoted(bs: seq<Byte>, m: string, k: nat, p: nat)
    requires ReprSearchable(m, k)
    requires OccursAt(BytesRepr(bs), m, p)
    ensures (exists i :: OccursAt(BytesText(bs), m, i)) && '"' as int !in bs
  {
    ReprInner(bs, m, k, p);
    var q := ReprQuote(bs);
    var s := EscapeBytes(bs, q);
    assert '\\' !in m;
    var at := p - 2 + k;
    assert k != 0 && s[at] == m[k] && m[k - 1] != '\\';
    QuoteEscaped(bs, q, at);
    assert s[at - 1] == m[k - 1];
    assert q == '"';
    EscapedOccurrence(bs, q, m, p - 2);
  }

  /** The bytes under an occurrence of a text are the text's characters. */
  lemma OccurrenceBytes(bs: seq<Byte>, m: string, i: nat)
    requires OccursAt(BytesText(bs), m, i)
    ensures BytesText(bs[i..i + |m|]) == m
    ensures forall j :: 0 <= j < |m| ==> bs[i + j] == m[j] as int
  {
    forall j | 0 <= j < |m|
      ensures bs[i + j] == m[j] as int
    {
      assert BytesText(bs)[i + j] == m[j];
    }
  }

  /** A text of bytes that need no escape shows through the escaping. */
  lemma PlainOccurrence(bs: seq<Byte>, quote: char, m: string, i: nat)
    requires OccursAt(BytesText(bs), m, i)
    requires forall j :: 0 <= j < |m| ==> ' ' <= m[j] <= '~' && m[j] != quote && m[j] != '\\'
    ensures OccursAt(EscapeBytes(bs, quote), m, |EscapeBytes(bs[..i], quote)|)
  {
    var pre, mid, post := bs[..i], bs[i..i + |m|], bs[i + |m|..];
    OccurrenceBytes(bs, m, i);
    forall j | 0 <= j < |mid|
      ensures 0x20 <= mid[j] < 0x7f && mid[j] != quote as int && mid[j] != '\\' as int
    {
      assert mid[j] == bs[i + j] == m[j] as int;
    }
    EscapePlain(mid, quote);
    assert bs == pre + (mid + post);
    EscapeBytesAppend(pre, mid + post, quote);
    EscapeBytesAppend(mid, post, quote);
    OccursInMiddle(EscapeBytes(pre, quote), m, EscapeBytes(post, quote));
  }

  lemma OccursInMiddle(a: string, m: string, c: string)
    ensures OccursAt(a + (m + c), m, |a|)
  {
    assert (a + (m + c))[|a|..|a| + |m|] == m;
  }

  /** Held by bytes without a double quote: then found in `str(b)`. */
  lemma ReprOccursWhenUnquoted(bs: seq<Byte>, m: string, k: nat, i: nat)
    requires ReprSearchable(m, k)
    requires OccursAt(BytesText(bs), m, i) && '"' as int !in bs
    ensures exists p :: OccursAt(BytesRepr(bs), m, p)
  {
    var q := ReprQuote(bs);
    assert BytesText(bs)[i + k] == '\'';
    assert q == '"';
    PlainOccurrence(bs, q, m, i);
    var s := EscapeBytes(bs, q);
    var at := |EscapeBytes(bs[..i], q)|;
    var r := BytesRepr(bs);
    assert r == "b" + [q] + s + [q];
    assert r[at + 2..at + 2 + |m|] == s[at..at + |m|];
    assert OccursAt(r, m, at + 2);
  }

  /**
   * Searching `str(b)` for such a text finds it exactly when it occurs in
   * the bytes and the bytes hold no double quote: with a double quote
   * present, `repr` quotes with `'` and escapes every `'` of the text.
   */
  lemma ReprOccurs(bs: seq<Byte>, m: string, k: nat)
    requires ReprSearchable(m, k)
    ensures (exists p :: OccursAt(BytesRepr(bs), m, p))
            <==> (exists i :: OccursAt(BytesText(bs), m, i)) && '"' as int !in bs
  {
    if p :| OccursAt(BytesRepr(bs), m, p) {
      ReprOccursOnlyUnquoted(bs, m, k, p);
    }
    if i :| OccursAt(BytesText(bs), m, i) && '"' as int !in bs {
      ReprOccursWhenUnquoted(bs, m, k, i);
    }
  }
}
