/** The string operations the two HTTP servers use, with Python's meaning:
    `str.split(sep)`, `str.split(sep, maxsplit)`, `str.strip()`,
    `startswith`/`endswith`, decimal and thousands-grouped formatting of
    integers, and the length of the UTF-8 encoding. */
module Text {
  import opened Base

  predicate StartsWith(s: string, prefix: string) {
    |prefix| <= |s| && s[..|prefix|] == prefix
  }

  predicate EndsWith(s: string, suffix: string) {
    |suffix| <= |s| && s[|s| - |suffix|..] == suffix
  }

  // ---------------------------------------------------------------------
  // split
  // ---------------------------------------------------------------------

  /** Index of the first `c` in `s`. */
  function IndexOf(s: string, c: char): (i: nat)
    requires c in s
    ensures i < |s| && s[i] == c && c !in s[..i]
  {
    if s[0] == c then 0 else 1 + IndexOf(s[1..], c)
  }

  /** `sep.join(parts)` for a one-character separator. */
  function Join(parts: seq<string>, sep: char): string {
    if |parts| == 0 then ""
    else if |parts| == 1 then parts[0]
    else parts[0] + [sep] + Join(parts[1..], sep)
  }

  lemma JoinCons(a: string, rest: seq<string>, sep: char)
    requires rest != []
    ensures Join([a] + rest, sep) == a + [sep] + Join(rest, sep)
  {
    assert ([a] + rest)[1..] == rest;
  }

  /** `s.split(sep)` for a one-character separator: the pieces between the
      separators, at least one piece, none containing the separator. */
  function Split(s: string, sep: char): (parts: seq<string>)
    decreases |s|
    ensures |parts| >= 1
    ensures forall k :: 0 <= k < |parts| ==> sep !in parts[k]
  {
    if sep !in s then [s]
    else
      var i := IndexOf(s, sep);
      [s[..i]] + Split(s[i + 1..], sep)
  }

  /** Joining the pieces with the separator gives back the string. */
  lemma {:induction false} JoinSplit(s: string, sep: char)
    ensures Join(Split(s, sep), sep) == s
    decreases |s|
  {
    if sep in s {
      var a, t := FirstCut(s, sep);
      JoinSplit(t, sep);
      JoinSplitStep(a, sep, t);
    } else {
      assert Join([s], sep) == s;
    }
  }

  /** The text before the first separator and the text after it. */
  lemma FirstCut(s: string, sep: char) returns (a: string, t: string)
    requires sep in s
    ensures sep !in a && s == a + [sep] + t && |t| < |s|
  {
    var i := IndexOf(s, sep);
    a, t := s[..i], s[i + 1..];
    Cut(s, i);
  }

  lemma JoinSplitStep(a: string, sep: char, t: string)
    requires sep !in a && Join(Split(t, sep), sep) == t
    ensures Join(Split(a + [sep] + t, sep), sep) == a + [sep] + t
  {
    SplitUnfold(a, sep, t);
    JoinCons(a, Split(t, sep), sep);
  }

  /** The first separator of `p + [sep] + t`, when `p` has none, ends `p`. */
  lemma {:induction false} IndexOfAfter(p: string, sep: char, t: string)
    requires sep !in p
    ensures IndexOf(p + [sep] + t, sep) == |p|
    decreases |p|
  {
    if p != [] {
      assert (p + [sep] + t)[1..] == p[1..] + [sep] + t;
      IndexOfAfter(p[1..], sep, t);
    }
  }

  /** Splitting a join of separator-free pieces gives back the pieces. */
  lemma {:induction false} SplitJoin(parts: seq<string>, sep: char)
    requires |parts| >= 1
    requires forall k :: 0 <= k < |parts| ==> sep !in parts[k]
    ensures Split(Join(parts, sep), sep) == parts
    decreases |parts|
  {
    if |parts| > 1 {
      var p, tail := parts[0], Join(parts[1..], sep);
      var s := p + [sep] + tail;
      assert Join(parts, sep) == s;
      IndexOfAfter(p, sep, tail);
      assert s[..|p|] == p;
      assert s[|p| + 1..] == tail;
      SplitJoin(parts[1..], sep);
      assert Split(s, sep) == [p] + Split(tail, sep);
      assert parts == [p] + parts[1..];
    }
  }

  /** The first piece of a split is everything before the first separator. */
  lemma SplitFirst(a: string, sep: char, b: string)
    requires sep !in a
    ensures Split(a + [sep] + b, sep)[0] == a
  {
    IndexOfAfter(a, sep, b);
    assert (a + [sep] + b)[..|a|] == a;
  }

  lemma SplitUnfold(p: string, sep: char, tail: string)
    requires sep !in p
    ensures Split(p + [sep] + tail, sep) == [p] + Split(tail, sep)
  {
    var s := p + [sep] + tail;
    IndexOfAfter(p, sep, tail);
    assert s[|p|] == sep;
    assert s[..|p|] == p;
    assert s[|p| + 1..] == tail;
  }

  /** `s.split(sep, maxsplit)`: at most `maxsplit` separators are cut at,
      from the left; the last piece keeps the rest. */
  function SplitN(s: string, sep: char, maxsplit: nat): (parts: seq<string>)
    decreases |s|
    ensures 1 <= |parts| <= maxsplit + 1
    ensures forall k :: 0 <= k < |parts| - 1 ==> sep !in parts[k]
  {
    if maxsplit == 0 || sep !in s then [s]
    else
      var i := IndexOf(s, sep);
      [s[..i]] + SplitN(s[i + 1..], sep, maxsplit - 1)
  }

  lemma SplitNUnfold(p: string, sep: char, tail: string, maxsplit: nat)
    requires sep !in p && maxsplit > 0
    ensures SplitN(p + [sep] + tail, sep, maxsplit) == [p] + SplitN(tail, sep, maxsplit - 1)
  {
    var s := p + [sep] + tail;
    IndexOfAfter(p, sep, tail);
    assert s[|p|] == sep;
    assert s[..|p|] == p;
    assert s[|p| + 1..] == tail;
  }

  lemma SplitNWhole(s: string, sep: char, maxsplit: nat)
    requires maxsplit == 0 || sep !in s
    ensures SplitN(s, sep, maxsplit) == [s]
  {
  }

  /** The pieces of a bounded split join back to the string. */
  lemma {:induction false} JoinSplitN(s: string, sep: char, maxsplit: nat)
    ensures Join(SplitN(s, sep, maxsplit), sep) == s
    decreases |s|
  {
    if maxsplit > 0 && sep in s {
      var a, t := FirstCut(s, sep);
      JoinSplitN(t, sep, maxsplit - 1);
      JoinSplitNStep(a, sep, t, maxsplit);
    } else {
      SplitNWhole(s, sep, maxsplit);
      assert Join([s], sep) == s;
    }
  }

  lemma JoinSplitNStep(a: string, sep: char, t: string, maxsplit: nat)
    requires sep !in a && maxsplit > 0 && Join(SplitN(t, sep, maxsplit - 1), sep) == t
    ensures Join(SplitN(a + [sep] + t, sep, maxsplit), sep) == a + [sep] + t
  {
    SplitNUnfold(a, sep, t, maxsplit);
    JoinCons(a, SplitN(t, sep, maxsplit - 1), sep);
  }

  /** A request line of three space-free fields splits into those fields,
      both by `split(' ')` and by `split(' ', 2)`. */
  lemma SplitThreeFields(a: string, b: string, c: string)
    requires ' ' !in a && ' ' !in b && ' ' !in c
    ensures Split(a + " " + b + " " + c, ' ') == [a, b, c]
    ensures SplitN(a + " " + b + " " + c, ' ', 2) == [a, b, c]
  {
    var bc := b + [' '] + c;
    ThreeFieldsShape(a, b, c);
    SplitAllThree(a, bc, b, c);
    SplitNThree(a, bc, b, c);
  }

  lemma ThreeFieldsShape(a: string, b: string, c: string)
    ensures a + " " + b + " " + c == a + [' '] + (b + [' '] + c)
  {
  }

  lemma SplitAllThree(a: string, bc: string, b: string, c: string)
    requires ' ' !in a && ' ' !in b && ' ' !in c && bc == b + [' '] + c
    ensures Split(a + [' '] + bc, ' ') == [a, b, c]
  {
    SplitUnfold(a, ' ', bc);
    SplitUnfold(b, ' ', c);
  }

  lemma SplitNThree(a: string, bc: string, b: string, c: string)
    requires ' ' !in a && ' ' !in b && ' ' !in c && bc == b + [' '] + c
    ensures SplitN(a + [' '] + bc, ' ', 2) == [a, b, c]
  {
    SplitNUnfold(a, ' ', bc, 2);
    SplitNUnfold(b, ' ', c, 1);
    SplitNWhole(c, ' ', 0);
  }

  /** Number of occurrences of `c` in `s`. */
  function Count(s: string, c: char): nat {
    if s == [] then 0 else (if s[0] == c then 1 else 0) + Count(s[1..], c)
  }

  lemma {:induction false} CountSplitAt(s: string, c: char, i: nat)
    requires i < |s| && s[i] == c && c !in s[..i]
    ensures Count(s, c) == 1 + Count(s[i + 1..], c)
    decreases i
  {
    if i > 0 {
      assert s[1..][..i - 1] == s[..i][1..];
      assert s[1..][i..] == s[i + 1..];
      CountSplitAt(s[1..], c, i - 1);
    }
  }

  lemma {:induction false} CountAbsent(s: string, c: char)
    requires c !in s
    ensures Count(s, c) == 0
  {
    if s != [] {
      assert s[1..] == s[1..];
      CountAbsent(s[1..], c);
    }
  }

  /** A bounded split yields `min(maxsplit, occurrences) + 1` pieces; so
      `s.split(' ', 2)` unpacks into three names exactly when `s` holds at
      least two spaces. */
  lemma {:induction false} SplitNLength(s: string, sep: char, maxsplit: nat)
    ensures |SplitN(s, sep, maxsplit)| == Min(maxsplit, Count(s, sep)) + 1
    decreases |s|
  {
    if sep !in s {
      CountAbsent(s, sep);
    } else if maxsplit > 0 {
      var i := IndexOf(s, sep);
      CountSplitAt(s, sep, i);
      SplitNLength(s[i + 1..], sep, maxsplit - 1);
    }
  }

  /** With no separator left over, a bounded split is the full split. */
  lemma {:induction false} SplitNIsSplit(s: string, sep: char, maxsplit: nat)
    requires Count(s, sep) <= maxsplit
    ensures SplitN(s, sep, maxsplit) == Split(s, sep)
    decreases |s|
  {
    if sep in s {
      var i := IndexOf(s, sep);
      CountSplitAt(s, sep, i);
      SplitNIsSplit(s[i + 1..], sep, maxsplit - 1);
    }
  }

  // ---------------------------------------------------------------------
  // strip
  // ---------------------------------------------------------------------

  /** The whitespace MicroPython's `str.strip()` removes (ASCII only). */
  predicate IsSpace(c: char) {
    c == ' ' || c == '\t' || c == '\n' || c == '\r' || c == '\U{B}' || c == '\U{C}'
  }

  function StripLeft(s: string): (r: string)
    ensures |r| <= |s| && r == s[|s| - |r|..]
    ensures r == [] || !IsSpace(r[0])
    ensures forall k :: 0 <= k < |s| - |r| ==> IsSpace(s[k])
  {
    if s != [] && IsSpace(s[0]) then
      var r := StripLeft(s[1..]);
      assert s[1..][|s| - 1 - |r|..] == s[|s| - |r|..];
      r
    else s
  }

  function StripRight(s: string): (r: string)
    ensures |r| <= |s| && r == s[..|r|]
    ensures r == [] || !IsSpace(r[|r| - 1])
    ensures forall k :: |r| <= k < |s| ==> IsSpace(s[k])
  {
    if s != [] && IsSpace(s[|s| - 1]) then
      var r := StripRight(s[..|s| - 1]);
      assert s[..|s| - 1][..|r|] == s[..|r|];
      r
    else s
  }

  /** `s.strip()`: the longest slice with no leading or trailing whitespace
      obtained by removing only whitespace. */
  function Strip(s: string): (r: string)
    ensures exists i, j :: 0 <= i <= j <= |s| && r == s[i..j]
                           && (forall k :: 0 <= k < i ==> IsSpace(s[k]))
                           && (forall k :: j <= k < |s| ==> IsSpace(s[k]))
    ensures r == [] || (!IsSpace(r[0]) && !IsSpace(r[|r| - 1]))
  {
    var l := StripLeft(s);
    var r := StripRight(l);
    var i := |s| - |l|;
    assert r == s[i..i + |r|];
    r
  }

  /** Text with no whitespace anywhere. */
  predicate NoSpace(s: string) {
    forall k :: 0 <= k < |s| ==> !IsSpace(s[k])
  }

  lemma {:induction false} StripLeftExact(pre: string, x: string)
    requires forall k :: 0 <= k < |pre| ==> IsSpace(pre[k])
    requires x != [] && !IsSpace(x[0])
    ensures StripLeft(pre + x) == x
    decreases |pre|
  {
    var s := pre + x;
    if pre == [] {
      assert s == x;
    } else {
      assert s[0] == pre[0] && IsSpace(s[0]);
      assert s[1..] == pre[1..] + x;
      StripLeftExact(pre[1..], x);
      assert StripLeft(s) == StripLeft(s[1..]);
    }
  }

  lemma {:induction false} StripRightExact(x: string, post: string)
    requires forall k :: 0 <= k < |post| ==> IsSpace(post[k])
    requires x != [] && !IsSpace(x[|x| - 1])
    ensures StripRight(x + post) == x
    decreases |post|
  {
    if post == [] {
      assert x + post == x;
    } else {
      var post' := post[..|post| - 1];
      assert (x + post)[..|x + post| - 1] == x + post';
      StripRightExact(x, post');
    }
  }

  /** Stripping removes exactly the surrounding whitespace. */
  lemma StripExact(pre: string, x: string, post: string)
    requires forall k :: 0 <= k < |pre| ==> IsSpace(pre[k])
    requires forall k :: 0 <= k < |post| ==> IsSpace(post[k])
    requires x != [] && !IsSpace(x[0]) && !IsSpace(x[|x| - 1])
    ensures Strip(pre + x + post) == x
  {
    assert pre + x + post == pre + (x + post);
    StripLeftExact(pre, x + post);
    StripRightExact(x, post);
  }

  /** The first line of `x` CR LF `rest`, stripped, is `x` when `x` has no
      line break and no surrounding whitespace. */
  lemma FirstLineStripped(x: string, rest: string)
    requires x != [] && !IsSpace(x[0]) && !IsSpace(x[|x| - 1]) && '\n' !in x
    ensures Strip(Split(x + "\r\n" + rest, '\n')[0]) == x
  {
    var line0 := x + "\r";
    assert x + "\r\n" + rest == line0 + ['\n'] + rest;
    assert '\n' !in line0;
    SplitFirst(line0, '\n', rest);
    StripExact("", x, "\r");
    assert "" + x + "\r" == line0;
  }

  lemma NoSpaceHasNoBlankOrBreak(s: string)
    requires NoSpace(s)
    ensures ' ' !in s && '\n' !in s
  {
    forall k | 0 <= k < |s|
      ensures s[k] != ' ' && s[k] != '\n'
    {
      assert !IsSpace(s[k]);
    }
  }

  /** The first line of a request `method path version` CR LF ..., stripped,
      splits into those three fields, both by `split(' ')` and by
      `split(' ', 2)`. */
  lemma RequestLineSplit(verb: string, path: string, version: string, rest: string)
    requires verb != [] && path != [] && version != []
    requires NoSpace(verb) && NoSpace(path) && NoSpace(version)
    ensures var line := Strip(Split(verb + " " + path + " " + version + "\r\n" + rest, '\n')[0]);
            Split(line, ' ') == [verb, path, version] && SplitN(line, ' ', 2) == [verb, path, version]
  {
    NoSpaceHasNoBlankOrBreak(verb);
    NoSpaceHasNoBlankOrBreak(path);
    NoSpaceHasNoBlankOrBreak(version);
    var x := verb + " " + path + " " + version;
    assert x[0] == verb[0] && x[|x| - 1] == version[|version| - 1];
    assert '\n' !in x;
    FirstLineStripped(x, rest);
    SplitThreeFields(verb, path, version);
  }

  /** Stripping twice is stripping once. */
  lemma StripIdempotent(s: string)
    ensures Strip(Strip(s)) == Strip(s)
  {
    var r := Strip(s);
    assert StripLeft(r) == r;
    assert StripRight(r) == r;
  }

  // ---------------------------------------------------------------------
  // Decimal and thousands-grouped formatting
  // ---------------------------------------------------------------------

  function Digit(d: nat): (c: char)
    requires d < 10
    ensures '0' <= c <= '9'
  {
    "0123456789"[d]
  }

  predicate AllDigits(s: string) {
    forall k :: 0 <= k < |s| ==> '0' <= s[k] <= '9'
  }

  /** `str(n)` for a natural number. */
  function NatToDecimal(n: nat): (s: string)
    ensures |s| >= 1 && AllDigits(s)
    ensures |s| > 1 ==> s[0] != '0'
  {
    if n < 10 then [Digit(n)] else NatToDecimal(n / 10) + [Digit(n % 10)]
  }

  /** The value of a string of decimal digits (`int(s)`). */
  function DecimalValue(s: string): nat
    requires AllDigits(s)
  {
    if s == [] then 0 else 10 * DecimalValue(s[..|s| - 1]) + (s[|s| - 1] as int - '0' as int)
  }

  /** Parsing the decimal text of `n` gives back `n`. */
  lemma {:induction false} DecimalRoundTrip(n: nat)
    ensures DecimalValue(NatToDecimal(n)) == n
  {
    if n >= 10 {
      DecimalRoundTrip(n / 10);
      var s := NatToDecimal(n);
      assert s[..|s| - 1] == NatToDecimal(n / 10);
    }
  }

  /** Different numbers have different decimal texts. */
  lemma DecimalInjective(m: nat, n: nat)
    requires NatToDecimal(m) == NatToDecimal(n)
    ensures m == n
  {
    DecimalRoundTrip(m);
    DecimalRoundTrip(n);
  }

  /** `n % 1000` as exactly three digits. */
  function Pad3(n: nat): (s: string)
    requires n < 1000
    ensures |s| == 3 && AllDigits(s)
  {
    [Digit(n / 100), Digit(n / 10 % 10), Digit(n % 10)]
  }

  /** `f"{n:,}"`: decimal digits grouped in threes by commas. */
  function Thousands(n: nat): (s: string)
    ensures |s| >= 1
  {
    if n < 1000 then NatToDecimal(n) else Thousands(n / 1000) + "," + Pad3(n % 1000)
  }

  function RemoveCommas(s: string): string {
    if s == [] then [] else (if s[0] == ',' then [] else [s[0]]) + RemoveCommas(s[1..])
  }

  lemma {:induction false} RemoveCommasAppend(a: string, b: string)
    ensures RemoveCommas(a + b) == RemoveCommas(a) + RemoveCommas(b)
    decreases |a|
  {
    if a != [] {
      assert (a + b)[0] == a[0] && (a + b)[1..] == a[1..] + b;
      RemoveCommasAppend(a[1..], b);
      var h := if a[0] == ',' then [] else [a[0]];
      assert RemoveCommas(a + b) == h + RemoveCommas(a[1..] + b);
      assert RemoveCommas(a) == h + RemoveCommas(a[1..]);
    } else {
      assert a + b == b;
    }
  }

  lemma {:induction false} RemoveCommasDigits(s: string)
    requires AllDigits(s)
    ensures RemoveCommas(s) == s
    decreases |s|
  {
    if s != [] {
      RemoveCommasDigits(s[1..]);
    }
  }

  lemma DivChain(n: nat)
    ensures n / 10 / 10 == n / 100 && n / 100 / 10 == n / 1000
  {
  }

  lemma LowDigits(n: nat)
    ensures n % 1000 / 100 == n / 100 % 10
    ensures n % 1000 / 10 % 10 == n / 10 % 10
    ensures n % 1000 % 10 == n % 10
  {
    var q, r := n / 1000, n % 1000;
    assert n == 1000 * q + r;
    var h := r / 100;
    assert r == 100 * h + r % 100;
    DivUnique100(n, 10 * q + h, r % 100);
    DivUnique10(10 * q + h, q, h);
    var t := r / 10;
    assert r == 10 * t + r % 10;
    DivUnique10(n, 100 * q + t, r % 10);
    assert t == 10 * (t / 10) + t % 10;
    DivUnique10(100 * q + t, 10 * q + t / 10, t % 10);
  }

  /** Euclidean division by 10 is determined by quotient and remainder. */
  lemma DivUnique10(n: nat, q: nat, r: nat)
    requires r < 10 && n == 10 * q + r
    ensures n / 10 == q && n % 10 == r
  {
  }

  lemma DivUnique100(n: nat, q: nat, r: nat)
    requires r < 100 && n == 100 * q + r
    ensures n / 100 == q && n % 100 == r
  {
  }

  /** The decimal text of `n >= 1000` is that of `n / 1000` followed by the
      three low digits. */
  lemma DecimalSplit3(n: nat)
    requires n >= 1000
    ensures NatToDecimal(n) == NatToDecimal(n / 1000) + Pad3(n % 1000)
  {
    DivChain(n);
    LowDigits(n);
    var a, b := n / 10, n / 100;
    assert NatToDecimal(n) == NatToDecimal(a) + [Digit(n % 10)];
    assert NatToDecimal(a) == NatToDecimal(b) + [Digit(a % 10)];
    assert NatToDecimal(b) == NatToDecimal(n / 1000) + [Digit(b % 10)];
  }

  /** Removing the grouping commas from `f"{n:,}"` gives `str(n)`. */
  lemma {:induction false} ThousandsDigits(n: nat)
    ensures RemoveCommas(Thousands(n)) == NatToDecimal(n)
  {
    if n < 1000 {
      RemoveCommasDigits(NatToDecimal(n));
    } else {
      ThousandsDigits(n / 1000);
      RemoveCommasAppend(Thousands(n / 1000) + ",", Pad3(n % 1000));
      RemoveCommasAppend(Thousands(n / 1000), ",");
      RemoveCommasDigits(Pad3(n % 1000));
      DecimalSplit3(n);
    }
  }

  // ---------------------------------------------------------------------
  // UTF-8
  // ---------------------------------------------------------------------

  predicate IsAscii(s: string) {
    forall k :: 0 <= k < |s| ==> s[k] as int < 0x80
  }

  /** The UTF-8 encoding of one character. */
  function EncodeChar(c: char): (b: seq<byte>)
    ensures 1 <= |b| <= 4
    ensures |b| == 1 <==> c as int < 0x80
  {
    var v := c as int;
    if v < 0x80 then [v as byte]
    else if v < 0x800 then [(0xC0 + v / 0x40) as byte, (0x80 + v % 0x40) as byte]
    else if v < 0x1_0000 then
      [(0xE0 + v / 0x1000) as byte, (0x80 + v / 0x40 % 0x40) as byte, (0x80 + v % 0x40) as byte]
    else
      [(0xF0 + v / 0x4_0000) as byte, (0x80 + v / 0x1000 % 0x40) as byte,
       (0x80 + v / 0x40 % 0x40) as byte, (0x80 + v % 0x40) as byte]
  }

  /** `s.encode('utf-8')`. */
  function Utf8(s: string): (b: seq<byte>)
    ensures |b| >= |s|
  {
    if s == [] then [] else EncodeChar(s[0]) + Utf8(s[1..])
  }

  lemma {:induction false} Utf8Append(a: string, b: string)
    ensures Utf8(a + b) == Utf8(a) + Utf8(b)
    decreases |a|
  {
    if a != [] {
      assert (a + b)[0] == a[0] && (a + b)[1..] == a[1..] + b;
      Utf8Append(a[1..], b);
      assert Utf8(a + b) == EncodeChar(a[0]) + Utf8(a[1..] + b);
      assert Utf8(a) == EncodeChar(a[0]) + Utf8(a[1..]);
    } else {
      assert a + b == b;
    }
  }

  /** The encoding has one byte per character exactly when the text is
      ASCII; so `len(html)` is the body's byte count only then. */
  lemma {:induction false} Utf8LengthIsCharCountIffAscii(s: string)
    ensures |Utf8(s)| == |s| <==> IsAscii(s)
  {
    if s != [] {
      Utf8LengthIsCharCountIffAscii(s[1..]);
      assert IsAscii(s) <==> s[0] as int < 0x80 && IsAscii(s[1..]);
    }
  }

  /** ASCII text encodes byte for byte. */
  lemma {:induction false} Utf8Ascii(s: string)
    requires IsAscii(s)
    ensures |Utf8(s)| == |s|
    ensures forall k :: 0 <= k < |s| ==> Utf8(s)[k] as int == s[k] as int
  {
    if s != [] {
      Utf8Ascii(s[1..]);
    }
  }
}
