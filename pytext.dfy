/**
 * The Python 2 string built-ins the modelled code relies on (str.split with a
 * one-character separator, str.strip, int() and str() on base-10 integers,
 * str.replace of one character by nothing), and the colon-keyed line search
 * shared by the bootstrap-inspector and ab output parsers.
 */
module PyText {
  import opened Wrappers

  /** Index of the first occurrence of c in s, if any. */
  function IndexOf(s: string, c: char): (r: Option<nat>)
    ensures r.Some? ==> r.value < |s|
  {
    if |s| == 0 then None
    else if s[0] == c then Some(0)
    else match IndexOf(s[1..], c)
      case None => None
      case Some(i) => Some(i + 1)
  }

  /** IndexOf finds the first occurrence, and None means there is none. */
  lemma {:induction false} IndexOfFirst(s: string, c: char)
    ensures IndexOf(s, c).Some? ==> s[IndexOf(s, c).value] == c && c !in s[..IndexOf(s, c).value]
    ensures IndexOf(s, c).None? <==> c !in s
  {
    if |s| > 0 && s[0] != c {
      IndexOfFirst(s[1..], c);
      assert s == [s[0]] + s[1..];
      match IndexOf(s[1..], c)
      case None =>
      case Some(i) => assert s[..i + 1] == [s[0]] + s[1..][..i];
    }
  }

  /** sep.join(parts) for a one-character separator. */
  function Join(parts: seq<string>, sep: char): (r: string)
  {
    if |parts| == 0 then ""
    else if |parts| == 1 then parts[0]
    else parts[0] + [sep] + Join(parts[1..], sep)
  }

  /**
   * s.split(sep): the pieces between occurrences of sep, empty pieces kept,
   * always at least one piece.
   */
  function Split(s: string, sep: char): (r: seq<string>)
    ensures |r| >= 1
    decreases |s|
  {
    match IndexOf(s, sep)
    case None => [s]
    case Some(i) => [s[..i]] + Split(s[i + 1..], sep)
  }

  /** The pieces split yields are free of sep and join back into s. */
  lemma {:induction false} SplitPieces(s: string, sep: char)
    ensures forall i :: 0 <= i < |Split(s, sep)| ==> sep !in Split(s, sep)[i]
    ensures Join(Split(s, sep), sep) == s
    decreases |s|
  {
    IndexOfFirst(s, sep);
    match IndexOf(s, sep)
    case None =>
    case Some(i) =>
      var rest := Split(s[i + 1..], sep);
      SplitPieces(s[i + 1..], sep);
      assert Split(s, sep) == [s[..i]] + rest;
      assert s == s[..i] + [sep] + s[i + 1..];
  }

  lemma {:induction false} IndexOfAfterPiece(p: string, c: char, t: string)
    requires c !in p
    ensures IndexOf(p + [c] + t, c) == Some(|p|)
  {
    if |p| > 0 {
      assert (p + [c] + t)[1..] == p[1..] + [c] + t;
      IndexOfAfterPiece(p[1..], c, t);
    }
  }

  /** Splitting a join of separator-free pieces gives the pieces back. */
  lemma {:induction false} SplitJoin(parts: seq<string>, sep: char)
    requires |parts| >= 1
    requires forall i :: 0 <= i < |parts| ==> sep !in parts[i]
    ensures Split(Join(parts, sep), sep) == parts
  {
    if |parts| == 1 {
      IndexOfFirst(parts[0], sep);
    } else {
      var s := Join(parts, sep);
      var tail := Join(parts[1..], sep);
      assert s == parts[0] + [sep] + tail;
      IndexOfAfterPiece(parts[0], sep, tail);
      assert s[..|parts[0]|] == parts[0];
      assert s[|parts[0]| + 1..] == tail;
      SplitJoin(parts[1..], sep);
      assert parts == [parts[0]] + parts[1..];
    }
  }

  /** A separator-free piece followed by sep splits off as the first piece. */
  lemma SplitAfterPiece(p: string, sep: char, t: string)
    requires sep !in p
    ensures Split(p + [sep] + t, sep) == [p] + Split(t, sep)
  {
    var s := p + [sep] + t;
    IndexOfAfterPiece(p, sep, t);
    assert s[..|p|] == p;
    assert s[|p| + 1..] == t;
  }

  /** Two separator-free pieces, each followed by sep, split off in front of the rest. */
  lemma SplitTwoPieces(a: string, b: string, t: string, sep: char)
    requires sep !in a && sep !in b
    ensures Split(a + [sep] + (b + [sep] + t), sep) == [a, b] + Split(t, sep)
  {
    SplitAfterPiece(a, sep, b + [sep] + t);
    SplitAfterPiece(b, sep, t);
  }

  /** Three separator-free pieces joined by sep split back into those three. */
  lemma SplitThreePieces(a: string, b: string, c: string, sep: char)
    requires sep !in a && sep !in b && sep !in c
    ensures Split(a + [sep] + (b + [sep] + c), sep) == [a, b, c]
  {
    SplitTwoPieces(a, b, c, sep);
    SplitHasSecondPiece(c, sep);
  }

  /** split yields a second piece exactly when sep occurs, and s itself when it does not. */
  lemma SplitHasSecondPiece(s: string, sep: char)
    ensures |Split(s, sep)| >= 2 <==> sep in s
    ensures sep !in s ==> Split(s, sep) == [s]
  {
    IndexOfFirst(s, sep);
  }

  /** s.split(sep)[0]: the text before the first sep (all of s when there is none). */
  function Head(s: string, sep: char): (r: string)
  {
    match IndexOf(s, sep)
    case None => s
    case Some(i) => s[..i]
  }

  /**
   * Head is the first piece split yields: the longest prefix free of sep,
   * followed in s by a sep unless it is all of s.
   */
  lemma HeadIsFirstPiece(s: string, sep: char)
    ensures Head(s, sep) == Split(s, sep)[0]
    ensures sep !in Head(s, sep)
    ensures |Head(s, sep)| <= |s| && Head(s, sep) == s[..|Head(s, sep)|]
    ensures |Head(s, sep)| < |s| ==> s[|Head(s, sep)|] == sep
  {
    IndexOfFirst(s, sep);
  }

  /** s.lstrip(chars) */
  function LStrip(s: string, chars: set<char>): (r: string)
  {
    if |s| > 0 && s[0] in chars then LStrip(s[1..], chars) else s
  }

  /** s.rstrip(chars) */
  function RStrip(s: string, chars: set<char>): (r: string)
  {
    if |s| > 0 && s[|s| - 1] in chars then RStrip(s[..|s| - 1], chars) else s
  }

  /** s.strip(chars) */
  function Strip(s: string, chars: set<char>): (r: string)
  {
    RStrip(LStrip(s, chars), chars)
  }

  /** lstrip removes a prefix of stripped characters and stops at the first other one. */
  lemma {:induction false} LStripRemovesPrefix(s: string, chars: set<char>)
    ensures var r := LStrip(s, chars);
      |r| <= |s| && r == s[|s| - |r|..] &&
      (forall i :: 0 <= i < |s| - |r| ==> s[i] in chars) &&
      (r == [] || r[0] !in chars)
  {
    if |s| > 0 && s[0] in chars {
      LStripRemovesPrefix(s[1..], chars);
    }
  }

  /** rstrip removes a suffix of stripped characters and stops at the last other one. */
  lemma {:induction false} RStripRemovesSuffix(s: string, chars: set<char>)
    ensures var r := RStrip(s, chars);
      |r| <= |s| && r == s[..|r|] &&
      (forall i :: |r| <= i < |s| ==> s[i] in chars) &&
      (r == [] || r[|r| - 1] !in chars)
  {
    if |s| > 0 && s[|s| - 1] in chars {
      RStripRemovesSuffix(s[..|s| - 1], chars);
    }
  }

  /** The characters str.strip() and int() treat as whitespace. */
  const Whitespace: set<char> := {' ', '\t', '\n', '\r', '\U{0B}', '\U{0C}'}

  /** Strip only removes characters of the stripped set from the two ends. */
  lemma {:induction false} StripPadded(pad: string, t: string, chars: set<char>)
    requires forall i :: 0 <= i < |pad| ==> pad[i] in chars
    requires t != [] && t[0] !in chars && t[|t| - 1] !in chars
    ensures Strip(pad + t, chars) == t
  {
    LStripPadded(pad, t, chars);
  }

  lemma {:induction false} LStripPadded(pad: string, t: string, chars: set<char>)
    requires forall i :: 0 <= i < |pad| ==> pad[i] in chars
    requires t != [] && t[0] !in chars
    ensures LStrip(pad + t, chars) == t
  {
    if |pad| > 0 {
      assert (pad + t)[1..] == pad[1..] + t;
      LStripPadded(pad[1..], t, chars);
    } else {
      assert pad + t == t;
    }
  }

  predicate IsDigit(c: char) { '0' <= c <= '9' }

  function DigitValue(c: char): (r: nat)
    requires IsDigit(c)
  {
    (c as int) - ('0' as int)
  }

  function DigitChar(d: nat): (c: char)
    requires d < 10
    ensures IsDigit(c) && DigitValue(c) == d
  {
    (('0' as int) + d) as char
  }

  /** A non-empty run of decimal digits. */
  predicate IsDigits(s: string)
  {
    |s| > 0 && forall i :: 0 <= i < |s| ==> IsDigit(s[i])
  }

  /** The value of a run of decimal digits, leading zeros allowed. */
  function DigitsValue(s: string): (r: nat)
    requires forall i :: 0 <= i < |s| ==> IsDigit(s[i])
  {
    if |s| == 0 then 0 else 10 * DigitsValue(s[..|s| - 1]) + DigitValue(s[|s| - 1])
  }

  /**
   * Python 2's int(s) on a string: surrounding whitespace, an optional sign
   * (which whitespace may follow) and at least one decimal digit; None where
   * int() raises ValueError.
   */
  function ParseInt(s: string): (r: Option<int>)
  {
    var t := Strip(s, Whitespace);
    if |t| > 0 && (t[0] == '-' || t[0] == '+') then
      var u := LStrip(t[1..], Whitespace);
      if IsDigits(u) then
        var v: int := DigitsValue(u);
        Some(if t[0] == '-' then -v else v)
      else None
    else if IsDigits(t) then Some(DigitsValue(t))
    else None
  }

  /** str(n) for n >= 0 */
  function NatToString(n: nat): (r: string)
  {
    if n < 10 then [DigitChar(n)] else NatToString(n / 10) + [DigitChar(n % 10)]
  }

  /** str(n) is a run of digits worth n, with no leading zero. */
  lemma {:induction false} NatToStringDigits(n: nat)
    ensures IsDigits(NatToString(n))
    ensures DigitsValue(NatToString(n)) == n
    ensures |NatToString(n)| > 1 ==> NatToString(n)[0] != '0'
  {
    if n >= 10 {
      NatToStringDigits(n / 10);
      var r := NatToString(n);
      assert r[..|r| - 1] == NatToString(n / 10);
    }
  }

  /** str(n): a minus sign for negative n, then the decimal digits. */
  function IntToString(n: int): (r: string)
  {
    if n < 0 then "-" + NatToString(-n) else NatToString(n)
  }

  /** str(n) ends in a digit and holds nothing but digits and a minus sign. */
  lemma IntToStringDigits(n: int)
    ensures |IntToString(n)| > 0 && IsDigit(IntToString(n)[|IntToString(n)| - 1])
    ensures forall i :: 0 <= i < |IntToString(n)| ==> IntToString(n)[i] == '-' || IsDigit(IntToString(n)[i])
  {
    NatToStringDigits(if n < 0 then -n else n);
  }

  /** A string without whitespace at either end is left alone by strip(). */
  lemma StripNoop(t: string, chars: set<char>)
    requires t != [] && t[0] !in chars && t[|t| - 1] !in chars
    ensures Strip(t, chars) == t
  {
    StripPadded("", t, chars);
    assert "" + t == t;
  }

  /** int(str(n)) == n */
  lemma ParseIntToString(n: int)
    ensures ParseInt(IntToString(n)) == Some(n)
  {
    var r := IntToString(n);
    IntToStringDigits(n);
    NatToStringDigits(if n < 0 then -n else n);
    StripNoop(r, Whitespace);
    if n < 0 {
      assert r[1..] == NatToString(-n);
    } else {
      assert IsDigit(r[0]);
    }
  }

  /** int() skips whitespace between the sign and the digits: int('- 5') == -5. */
  lemma ParseIntSpaceAfterSign(pad: string, n: nat)
    requires forall i :: 0 <= i < |pad| ==> pad[i] in Whitespace
    ensures ParseInt("-" + pad + NatToString(n)) == Some(-(n as int))
  {
    var digits := NatToString(n);
    NatToStringDigits(n);
    var s := "-" + pad + digits;
    StripNoop(s, Whitespace);
    assert s[1..] == pad + digits;
    LStripPadded(pad, digits, Whitespace);
    assert Strip(s, Whitespace) == s && s[0] == '-';
    assert LStrip(s[1..], Whitespace) == digits;
  }

  /** str(n) is injective: distinct integers print differently. */
  lemma IntToStringInjective(a: int, b: int)
    requires IntToString(a) == IntToString(b)
    ensures a == b
  {
    ParseIntToString(a);
    ParseIntToString(b);
  }

  /** s.replace(c, '') */
  function RemoveAll(s: string, c: char): (r: string)
  {
    if |s| == 0 then "" else (if s[0] == c then "" else [s[0]]) + RemoveAll(s[1..], c)
  }

  /** replace(c, '') removes every c and keeps every other character, in order and with its count. */
  lemma {:induction false} RemoveAllKeepsOthers(s: string, c: char)
    ensures c !in RemoveAll(s, c)
    ensures c !in s ==> RemoveAll(s, c) == s
    ensures forall x :: x != c ==> multiset(RemoveAll(s, c))[x] == multiset(s)[x]
  {
    if |s| > 0 {
      RemoveAllKeepsOthers(s[1..], c);
      assert s == [s[0]] + s[1..];
    }
  }

  /** line.split(':')[0]: the key of a "key: value" line. */
  function Key(line: string): (r: string)
  {
    Head(line, ':')
  }

  /** Index of the first line whose key is key, as the source's scans find it. */
  function FindKeyedLine(lines: seq<string>, key: string): (r: Option<nat>)
    ensures r.Some? ==> r.value < |lines| && Key(lines[r.value]) == key
    ensures r.Some? ==> forall j {:trigger Key(lines[j])} :: 0 <= j < r.value ==> Key(lines[j]) != key
    ensures r.None? <==> forall j {:trigger Key(lines[j])} :: 0 <= j < |lines| ==> Key(lines[j]) != key
  {
    if |lines| == 0 then None
    else if Key(lines[0]) == key then Some(0)
    else match FindKeyedLine(lines[1..], key)
      case None => None
      case Some(i) => Some(i + 1)
  }

  /** Appending lines after a keyed line does not change which line is found first. */
  lemma {:induction false} FindKeyedLineAppend(lines: seq<string>, more: seq<string>, key: string)
    requires FindKeyedLine(lines, key).Some?
    ensures FindKeyedLine(lines + more, key) == FindKeyedLine(lines, key)
  {
    if Key(lines[0]) != key {
      assert (lines + more)[1..] == lines[1..] + more;
      FindKeyedLineAppend(lines[1..], more, key);
    }
  }
}
