/**
 * The Python string built-ins the two core files rely on, over `string` = `seq<char>`:
 * `str.isspace`, `str.strip`, `str.split` with a one-character separator, `str.join`,
 * `str.startswith`, `str.endswith`, `str(n)` and `int(s)` in base 10.
 */
module PyStrings {
  import opened Common

  /** `c.isspace()`: the characters Python's `strip()` treats as whitespace. */
  predicate IsSpace(c: char) {
    c == ' ' || '\t' <= c <= '\r' || '\U{1c}' <= c <= '\U{1f}' || c == '\U{85}' || c == '\U{a0}'
    || c == '\U{1680}' || '\U{2000}' <= c <= '\U{200a}' || c == '\U{2028}' || c == '\U{2029}'
    || c == '\U{202f}' || c == '\U{205f}' || c == '\U{3000}'
  }

  /** Neither end of `s` is whitespace. */
  predicate IsStripped(s: string) {
    s == [] || (!IsSpace(s[0]) && !IsSpace(s[|s| - 1]))
  }

  /** `s.lstrip()`: the suffix left after the longest all-whitespace prefix. */
  function LStrip(s: string): (r: string)
    ensures |r| <= |s|
    ensures r == [] || !IsSpace(r[0])
  {
    if s != [] && IsSpace(s[0]) then LStrip(s[1..]) else s
  }

  /** `lstrip` keeps a suffix and what it drops is whitespace. */
  lemma {:induction false} LStripDropsSpaces(s: string)
    ensures LStrip(s) == s[|s| - |LStrip(s)|..]
    ensures forall i :: 0 <= i < |s| - |LStrip(s)| ==> IsSpace(s[i])
  {
    if s != [] && IsSpace(s[0]) {
      LStripDropsSpaces(s[1..]);
      assert forall i :: 1 <= i < |s| ==> s[i] == s[1..][i - 1];
    }
  }

  /** `s.rstrip()`: the prefix left after the longest all-whitespace suffix. */
  function RStrip(s: string): (r: string)
    ensures |r| <= |s|
    ensures r == [] || !IsSpace(r[|r| - 1])
  {
    if s != [] && IsSpace(s[|s| - 1]) then RStrip(s[..|s| - 1]) else s
  }

  /** `rstrip` keeps a prefix and what it drops is whitespace. */
  lemma {:induction false} RStripDropsSpaces(s: string)
    ensures RStrip(s) == s[..|RStrip(s)|]
    ensures forall i :: |RStrip(s)| <= i < |s| ==> IsSpace(s[i])
  {
    if s != [] && IsSpace(s[|s| - 1]) {
      RStripDropsSpaces(s[..|s| - 1]);
    }
  }

  /** A string that starts with a non-whitespace character does not strip to nothing. */
  lemma StripNonBlank(s: string)
    requires s != [] && !IsSpace(s[0])
    ensures LStrip(s) == s && Strip(s) != []
  {
    RStripDropsSpaces(s);
  }

  /** `s.strip()`. */
  function Strip(s: string): (r: string)
    ensures IsStripped(r)
    ensures |r| <= |LStrip(s)| <= |s|
  {
    RStripDropsSpaces(LStrip(s));
    RStrip(LStrip(s))
  }

  /** `strip` keeps a slice of its argument. */
  lemma StripSlice(s: string)
    ensures var a := |s| - |LStrip(s)|;
            Strip(s) == s[a..a + |Strip(s)|]
  {
    LStripDropsSpaces(s);
    RStripDropsSpaces(LStrip(s));
  }

  /** A string of whitespace strips to nothing. */
  lemma StripBlank(w: string)
    requires forall i :: 0 <= i < |w| ==> IsSpace(w[i])
    ensures Strip(w) == []
  {
    LStripSpacePrefix(w, []);
    assert w + [] == w;
  }

  /** Stripping adds no character. */
  lemma StripKeepsOut(s: string, c: char)
    requires c !in s
    ensures c !in Strip(s)
  {
    var r := Strip(s);
    var a := |s| - |LStrip(s)|;
    StripSlice(s);
    forall k | 0 <= k < |r| ensures r[k] != c {
      assert r[k] == s[a + k];
    }
  }

  /** Stripping changes exactly the strings that have whitespace at an end. */
  lemma StripFixedPoints(s: string)
    ensures Strip(s) == s <==> IsStripped(s)
  {
    if IsStripped(s) {
      assert LStrip(s) == s;
      assert RStrip(s) == s;
    }
  }

  /** Whitespace in front of a string does not survive `lstrip`. */
  lemma {:induction false} LStripSpacePrefix(w: string, s: string)
    requires forall i :: 0 <= i < |w| ==> IsSpace(w[i])
    ensures LStrip(w + s) == LStrip(s)
  {
    if w == [] {
      assert w + s == s;
    } else {
      assert (w + s)[0] == w[0];
      assert (w + s)[1..] == w[1..] + s;
      assert LStrip(w + s) == LStrip(w[1..] + s);
      LStripSpacePrefix(w[1..], s);
    }
  }

  /** Whitespace behind a string does not survive `rstrip`. */
  lemma {:induction false} RStripSpaceSuffix(s: string, w: string)
    requires forall i :: 0 <= i < |w| ==> IsSpace(w[i])
    ensures RStrip(s + w) == RStrip(s)
  {
    if w == [] {
      assert s + w == s;
    } else {
      assert (s + w)[|s + w| - 1] == w[|w| - 1];
      assert (s + w)[..|s + w| - 1] == s + w[..|w| - 1];
      assert RStrip(s + w) == RStrip(s + w[..|w| - 1]);
      RStripSpaceSuffix(s, w[..|w| - 1]);
    }
  }

  /** The first occurrence of `c` in `p + [c] + q` is right after `p` when `p` has none. */
  lemma IndexOfAfter(p: string, c: char, q: string)
    requires c !in p
    ensures IndexOf(p + [c] + q, c) == |p|
  {
    var s := p + [c] + q;
    assert s[|p|] == c;
  }

  /** `sep.join(parts)`. */
  function Join(parts: seq<string>, sep: string): string {
    if parts == [] then ""
    else if |parts| == 1 then parts[0]
    else parts[0] + sep + Join(parts[1..], sep)
  }

  /** `s.split(c)` for a one-character separator: the fields between separators, empty fields included. */
  function Split(s: string, c: char): (parts: seq<string>)
    ensures |parts| >= 1
    ensures forall i :: 0 <= i < |parts| ==> c !in parts[i]
    decreases |s|
  {
    if c !in s then [s]
    else
      var i := IndexOf(s, c);
      var rest := Split(s[i + 1..], c);
      assert ([s[..i]] + rest)[1..] == rest;
      [s[..i]] + rest
  }

  /** Joining the fields of a split with the separator gives the string back. */
  lemma {:induction false} JoinSplit(s: string, c: char)
    ensures Join(Split(s, c), [c]) == s
    decreases |s|
  {
    if c in s {
      var i := IndexOf(s, c);
      var head, tail := s[..i], s[i + 1..];
      var rest := Split(tail, c);
      assert Split(s, c) == [head] + rest;
      JoinSplit(tail, c);
      JoinCons(head, rest, [c]);
      assert s == head + [c] + tail;
    }
  }

  lemma JoinCons(p: string, rest: seq<string>, sep: string)
    requires |rest| >= 1
    ensures Join([p] + rest, sep) == p + sep + Join(rest, sep)
  {
    assert ([p] + rest)[1..] == rest;
  }

  /** Splitting a joined list gives the list back when no entry holds the separator. */
  lemma {:induction false} SplitJoin(parts: seq<string>, c: char)
    requires |parts| >= 1
    requires forall i :: 0 <= i < |parts| ==> c !in parts[i]
    ensures Split(Join(parts, [c]), c) == parts
  {
    if |parts| > 1 {
      var rest := Join(parts[1..], [c]);
      assert Join(parts, [c]) == parts[0] + [c] + rest;
      SplitCons(parts[0], c, rest);
      SplitJoin(parts[1..], c);
      assert parts == [parts[0]] + parts[1..];
    }
  }

  /** The first field of `p + [c] + rest` is `p` when `p` has no `c`. */
  lemma SplitCons(p: string, c: char, rest: string)
    requires c !in p
    ensures Split(p + [c] + rest, c) == [p] + Split(rest, c)
  {
    var s := p + [c] + rest;
    IndexOfAfter(p, c, rest);
    assert s[..|p|] == p;
    assert s[|p| + 1..] == rest;
  }

  /** `s.startswith(prefix)`. */
  predicate StartsWith(s: string, prefix: string) {
    |prefix| <= |s| && s[..|prefix|] == prefix
  }

  /** `s.endswith(suffix)`. */
  predicate EndsWith(s: string, suffix: string) {
    |suffix| <= |s| && s[|s| - |suffix|..] == suffix
  }

  predicate IsDigit(c: char) {
    '0' <= c <= '9'
  }

  function DigitValue(c: char): nat
    requires IsDigit(c)
  {
    (c as int) - ('0' as int)
  }

  function DigitChar(d: nat): (c: char)
    requires d < 10
    ensures IsDigit(c) && DigitValue(c) == d
  {
    (('0' as int) + d) as char
  }

  /** Decimal digits of a natural number, most significant first, without leading zeros. */
  function NatToString(n: nat): (s: string)
    ensures |s| >= 1
    ensures forall i :: 0 <= i < |s| ==> IsDigit(s[i])
  {
    if n < 10 then [DigitChar(n)] else NatToString(n / 10) + [DigitChar(n % 10)]
  }

  /** `str(n)` for an integer. */
  function IntToString(n: int): (s: string)
    ensures |s| >= 1
    ensures forall i :: 0 <= i < |s| ==> IsDigit(s[i]) || s[i] == '-'
  {
    if n < 0 then "-" + NatToString(-n) else NatToString(n)
  }

  /** The digit string `int()` accepts after the sign: digits, with single underscores only between digits. */
  predicate IsDigitGroup(b: string) {
    |b| >= 1 && IsDigit(b[0]) && IsDigit(b[|b| - 1])
    && (forall i :: 0 <= i < |b| ==> IsDigit(b[i]) || b[i] == '_')
    && (forall i :: 0 <= i < |b| - 1 ==> b[i] != '_' || b[i + 1] != '_')
  }

  function DropUnderscores(b: string): (ds: string)
    ensures (forall i :: 0 <= i < |b| ==> IsDigit(b[i]) || b[i] == '_') ==>
              forall i :: 0 <= i < |ds| ==> IsDigit(ds[i])
    ensures (forall i :: 0 <= i < |b| ==> b[i] != '_') ==> ds == b
  {
    if b == [] then [] else (if b[0] == '_' then [] else [b[0]]) + DropUnderscores(b[1..])
  }

  /** The value of a string of decimal digits. */
  function DigitsValue(ds: string): nat
    requires forall i :: 0 <= i < |ds| ==> IsDigit(ds[i])
  {
    if ds == [] then 0 else 10 * DigitsValue(ds[..|ds| - 1]) + DigitValue(ds[|ds| - 1])
  }

  /**
   * The whitespace `int()` skips around a number: that of `isspace()` less U+001C..U+001F, which
   * `int()` reads as ordinary characters, and so rejects.
   */
  predicate IsIntSpace(c: char) {
    IsSpace(c) && !('\U{1c}' <= c <= '\U{1f}')
  }

  /** What `int()` reads of `s`: `s` without `int()` whitespace at either end. */
  function IntStrip(s: string): (r: string)
    ensures |r| <= |s|
    ensures r == [] || (!IsIntSpace(r[0]) && !IsIntSpace(r[|r| - 1]))
  {
    if s != [] && IsIntSpace(s[0]) then IntStrip(s[1..])
    else if s != [] && IsIntSpace(s[|s| - 1]) then IntStrip(s[..|s| - 1])
    else s
  }

  /** Without U+001C..U+001F in the string, `int()` trims exactly what `strip()` does. */
  lemma {:induction false} IntStripAgrees(s: string)
    requires forall i :: 0 <= i < |s| ==> !('\U{1c}' <= s[i] <= '\U{1f}')
    ensures IntStrip(s) == Strip(s)
    decreases |s|
  {
    if s != [] && IsSpace(s[0]) {
      IntStripAgrees(s[1..]);
    } else if s != [] && IsSpace(s[|s| - 1]) {
      var p := s[..|s| - 1];
      IntStripAgrees(p);
      assert p[0] == s[0];
      assert LStrip(p) == p;
    }
  }

  /** `int()` rejects U+001C..U+001F around a number though `strip()` would remove them. */
  lemma ParseIntRejectsSeparatorControls()
    ensures Strip("\U{1c}5") == "5" && ParseInt("\U{1c}5") == None
    ensures Strip("5\U{1f}") == "5" && ParseInt("5\U{1f}") == None
  {
    var s, t := "\U{1c}5", "5\U{1f}";
    assert s[1..] == "5";
    assert LStrip(s) == "5";
    assert IntStrip(s) == s;
    assert !IsDigitGroup(s);
    assert t[..1] == "5";
    assert RStrip(t) == "5";
    assert IntStrip(t) == t;
    assert !IsDigitGroup(t);
  }

  /** `int()` skips the ordinary whitespace around a number. */
  lemma ParseIntSkipsSpaces()
    ensures ParseInt(" 5\t") == Some(5)
  {
    var s := " 5\t";
    assert s[1..] == "5\t";
    assert "5\t"[..1] == "5";
    assert IntStrip(s) == "5";
    assert DropUnderscores("5") == "5";
  }

  /** `int(s)` in base 10: `int()` whitespace around, an optional sign, then a digit group; `None` where Python raises ValueError. */
  function ParseInt(s: string): Option<int> {
    var t := IntStrip(s);
    if t != [] && (t[0] == '+' || t[0] == '-') then
      if IsDigitGroup(t[1..]) then
        var v: int := DigitsValue(DropUnderscores(t[1..]));
        Some(if t[0] == '-' then -v else v)
      else None
    else if IsDigitGroup(t) then Some(DigitsValue(DropUnderscores(t)))
    else None
  }

  lemma {:induction false} NatToStringValue(n: nat)
    ensures DigitsValue(NatToString(n)) == n
  {
    if n >= 10 {
      var s := NatToString(n);
      assert s[..|s| - 1] == NatToString(n / 10);
      NatToStringValue(n / 10);
    }
  }

  /** The digits of a natural number form a digit group that `int()` reads back. */
  lemma NatToStringGroup(n: nat)
    ensures IsDigitGroup(NatToString(n))
    ensures DropUnderscores(NatToString(n)) == NatToString(n)
    ensures IsStripped(NatToString(n))
  {
    var s := NatToString(n);
    assert IsDigit(s[0]) && IsDigit(s[|s| - 1]);
  }

  /** `int(str(n)) == n`. */
  lemma ParseIntToString(n: int)
    ensures ParseInt(IntToString(n)) == Some(n)
  {
    if n < 0 {
      ParseNegative(n);
    } else {
      var s := IntToString(n);
      NatToStringGroup(n);
      StripFixedPoints(s);
      NatToStringValue(n);
    }
  }

  lemma ParseNegative(n: int)
    requires n < 0
    ensures ParseInt(IntToString(n)) == Some(n)
  {
    var d := NatToString(-n);
    assert IntToString(n) == "-" + d;
    NatToStringGroup(-n);
    NatToStringValue(-n);
    ParseSigned(d);
    assert DropUnderscores(d) == d;
    assert DigitsValue(d) == -n;
    assert ParseInt("-" + d) == Some(n);
  }

  /** `int()` of a minus sign followed by a digit group. */
  lemma ParseSigned(d: string)
    requires IsDigitGroup(d)
    ensures ParseInt("-" + d) == Some(-(DigitsValue(DropUnderscores(d)) as int))
  {
    var s := "-" + d;
    assert s[|s| - 1] == d[|d| - 1];
    StripFixedPoints(s);
    assert s[1..] == d;
  }

  /** `str` is one-to-one on integers. */
  lemma IntToStringInjective(m: int, n: int)
    requires IntToString(m) == IntToString(n)
    ensures m == n
  {
    ParseIntToString(m);
    ParseIntToString(n);
  }
}
