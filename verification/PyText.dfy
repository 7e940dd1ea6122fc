/**
  * The Python 2 string builtins the plugin relies on, on `seq<char>`:
  * `lower()`, `strip()` and `strip(chars)`, `find`/`in`, `split(sep)`,
  * `rsplit(sep, 1)` and `int()`.
  */
module PyText {
  import opened Wrappers

  // ---------------------------------------------------------------------------
  // lower()
  // ---------------------------------------------------------------------------

  /** Python 2's `unicode.lower()` on one character, for the Latin scripts:
      ASCII, Latin-1 and Latin Extended-A capitals. Python 2 uses the simple
      case mapping, so the dotted capital I (U+0130) becomes a plain `i`. */
  function LowerChar(c: char): char {
    var n := c as int;
    if 'A' <= c <= 'Z' || (0xC0 <= n <= 0xDE && n != 0xD7) then (n + 32) as char
    else if n == 0x130 then 'i'
    else if (0x100 <= n <= 0x137 || 0x14A <= n <= 0x177) && n % 2 == 0 then (n + 1) as char
    else if (0x139 <= n <= 0x148 || 0x179 <= n <= 0x17E) && n % 2 == 1 then (n + 1) as char
    else if n == 0x178 then 0xFF as char
    else c
  }

  lemma LowerCharIdempotent(c: char)
    ensures LowerChar(LowerChar(c)) == LowerChar(c)
  {
  }

  /** Python's `s.lower()`. */
  function Lower(s: string): (r: string)
    ensures |r| == |s|
    ensures forall i :: 0 <= i < |s| ==> r[i] == LowerChar(s[i])
    decreases |s|
  {
    if s == [] then [] else [LowerChar(s[0])] + Lower(s[1..])
  }

  lemma LowerIdempotent(s: string)
    ensures Lower(Lower(s)) == Lower(s)
  {
    forall i | 0 <= i < |s| ensures Lower(Lower(s))[i] == Lower(s)[i] {
      LowerCharIdempotent(s[i]);
    }
  }

  lemma {:induction false} LowerAppend(a: string, b: string)
    ensures Lower(a + b) == Lower(a) + Lower(b)
    decreases |a|
  {
    if a == [] {
      assert a + b == b;
    } else {
      assert (a + b)[1..] == a[1..] + b;
      LowerAppend(a[1..], b);
    }
  }

  // ---------------------------------------------------------------------------
  // strip() and strip(chars)
  // ---------------------------------------------------------------------------

  /** The characters Python 2's `unicode.strip()` removes. */
  predicate IsSpace(c: char) {
    var n := c as int;
    n == 0x20 || 0x09 <= n <= 0x0D || 0x1C <= n <= 0x1F || n == 0x85 || n == 0xA0
    || n == 0x1680 || n == 0x180E || 0x2000 <= n <= 0x200A || n == 0x2028 || n == 0x2029
    || n == 0x202F || n == 0x205F || n == 0x3000
  }

  /** Drops the leading characters satisfying `drop`. */
  function LStrip(s: string, drop: char -> bool): (r: string)
    ensures |r| <= |s| && r == s[|s| - |r|..]
    ensures r != [] ==> !drop(r[0])
    ensures forall i :: 0 <= i < |s| - |r| ==> drop(s[i])
    decreases |s|
  {
    if s != [] && drop(s[0]) then LStrip(s[1..], drop) else s
  }

  /** Drops the trailing characters satisfying `drop`. */
  function RStrip(s: string, drop: char -> bool): (r: string)
    ensures |r| <= |s| && r == s[..|r|]
    ensures r != [] ==> !drop(r[|r| - 1])
    ensures forall i :: |r| <= i < |s| ==> drop(s[i])
    decreases |s|
  {
    if s != [] && drop(s[|s| - 1]) then RStrip(s[..|s| - 1], drop) else s
  }


  // ---------------------------------------------------------------------------
  // find and `in`
  // ---------------------------------------------------------------------------

  /** Python's `s.find(pat)`: the first position where `pat` occurs in `s`. */
  function IndexOf(s: string, pat: string): (r: Option<nat>)
    ensures r.Some? ==> r.value + |pat| <= |s| && pat <= s[r.value..]
    ensures r.Some? ==> forall j :: 0 <= j < r.value ==> !(pat <= s[j..])
    ensures r.None? ==> forall j :: 0 <= j <= |s| ==> !(pat <= s[j..])
    decreases |s|
  {
    if pat <= s then Some(0)
    else if s == [] then None
    else
      var r := IndexOf(s[1..], pat);
      assert forall j :: 1 <= j <= |s| ==> s[j..] == s[1..][j - 1..];
      if r.None? then None else Some(r.value + 1)
  }

  /** Python's `needle in hay` on strings. */
  predicate Contains(hay: string, needle: string) {
    IndexOf(hay, needle).Some?
  }

  lemma ContainsAt(hay: string, needle: string, j: nat)
    requires j <= |hay| && needle <= hay[j..]
    ensures Contains(hay, needle)
  {
  }

  lemma ContainsSelf(s: string)
    ensures Contains(s, s)
  {
    assert s <= s[0..];
  }

  /** Python's `s.strip(...)`: both ends, as one contiguous slice of `s`. */
  function Strip(s: string, drop: char -> bool): (r: string)
    ensures Contains(s, r)
    ensures r != [] ==> !drop(r[0]) && !drop(r[|r| - 1])
  {
    var l := LStrip(s, drop);
    var r := RStrip(l, drop);
    assert r <= s[|s| - |l|..];
    ContainsAt(s, r, |s| - |l|);
    r
  }

  /** Python's `s.strip()`. */
  function StripSpace(s: string): string {
    Strip(s, IsSpace)
  }

  /** Python's `s.strip(chars)`. */
  function StripChars(s: string, chars: set<char>): string {
    Strip(s, c => c in chars)
  }

  /** Stripping a string whose two ends are kept returns it unchanged. */
  lemma StripKeeps(s: string, drop: char -> bool)
    requires s != [] ==> !drop(s[0]) && !drop(s[|s| - 1])
    ensures Strip(s, drop) == s
  {
  }

  /** Stripping leaves nothing exactly when every character is dropped. */
  lemma StripEmpty(s: string, drop: char -> bool)
    ensures Strip(s, drop) == [] <==> forall i :: 0 <= i < |s| ==> drop(s[i])
  {
    var l := LStrip(s, drop);
    if l != [] {
      assert l[0] == s[|s| - |l|];
    }
  }

  /** Leading characters that are all dropped go, up to a kept one. */
  lemma {:induction false} LStripPrefix(pre: string, rest: string, drop: char -> bool)
    requires forall i :: 0 <= i < |pre| ==> drop(pre[i])
    requires rest != [] && !drop(rest[0])
    ensures LStrip(pre + rest, drop) == rest
    decreases |pre|
  {
    if pre != [] {
      assert (pre + rest)[1..] == pre[1..] + rest;
      LStripPrefix(pre[1..], rest, drop);
    }
  }

  /** Trailing characters that are all dropped go, back to a kept one. */
  lemma {:induction false} RStripSuffix(rest: string, post: string, drop: char -> bool)
    requires forall i :: 0 <= i < |post| ==> drop(post[i])
    requires rest != [] && !drop(rest[|rest| - 1])
    ensures RStrip(rest + post, drop) == rest
    decreases |post|
  {
    if post != [] {
      assert (rest + post)[..|rest + post| - 1] == rest + post[..|post| - 1];
      RStripSuffix(rest, post[..|post| - 1], drop);
    }
  }

  /** Stripping removes exactly a padding of dropped characters around a text
      whose two ends are kept. */
  lemma StripPadded(pre: string, x: string, post: string, drop: char -> bool)
    requires forall i :: 0 <= i < |pre| ==> drop(pre[i])
    requires forall i :: 0 <= i < |post| ==> drop(post[i])
    requires x != [] && !drop(x[0]) && !drop(x[|x| - 1])
    ensures Strip(pre + x + post, drop) == x
  {
    assert pre + x + post == pre + (x + post);
    LStripPrefix(pre, x + post, drop);
    RStripSuffix(x, post, drop);
  }

  // ---------------------------------------------------------------------------
  // split(sep) and rsplit(sep, 1)
  // ---------------------------------------------------------------------------

  /** Python's `s.split(sep)` with an explicit one-character separator:
      every occurrence splits, empty fields are kept. */
  function SplitOn(s: string, sep: char): (parts: seq<string>)
    ensures |parts| >= 1
    ensures forall k :: 0 <= k < |parts| ==> sep !in parts[k]
    decreases |s|
  {
    if s == [] then [""]
    else
      var rest := SplitOn(s[1..], sep);
      if s[0] == sep then [""] + rest else [[s[0]] + rest[0]] + rest[1..]
  }

  /** Python's `sep.join(parts)`. */
  function Join(parts: seq<string>, sep: char): string
    requires |parts| >= 1
    decreases |parts|
  {
    if |parts| == 1 then parts[0] else parts[0] + [sep] + Join(parts[1..], sep)
  }

  lemma JoinConsHead(c: char, p: string, tail: seq<string>, sep: char)
    ensures Join([[c] + p] + tail, sep) == [c] + Join([p] + tail, sep)
  {
    if tail != [] {
      assert ([[c] + p] + tail)[1..] == tail;
      assert ([p] + tail)[1..] == tail;
    }
  }

  /** Splitting and joining again gives back the string. */
  lemma {:induction false} JoinSplit(s: string, sep: char)
    ensures Join(SplitOn(s, sep), sep) == s
    decreases |s|
  {
    if s != [] {
      JoinSplit(s[1..], sep);
      var rest := SplitOn(s[1..], sep);
      if s[0] == sep {
        assert ([""] + rest)[1..] == rest;
        assert s == [sep] + s[1..];
      } else {
        assert rest == [rest[0]] + rest[1..];
        JoinConsHead(s[0], rest[0], rest[1..], sep);
        assert s == [s[0]] + s[1..];
      }
    }
  }

  /** A string without the separator is a single field. */
  lemma {:induction false} SplitWithoutSep(s: string, sep: char)
    requires sep !in s
    ensures SplitOn(s, sep) == [s]
    decreases |s|
  {
    if s != [] {
      SplitWithoutSep(s[1..], sep);
      assert s == [s[0]] + s[1..];
    }
  }

  /** A separator-free head before the first separator is the first field. */
  lemma {:induction false} SplitAfterField(x: string, sep: char, y: string)
    requires sep !in x
    ensures SplitOn(x + [sep] + y, sep) == [x] + SplitOn(y, sep)
    decreases |x|
  {
    var s := x + [sep] + y;
    if x == [] {
      assert s[1..] == y;
    } else {
      assert s[1..] == x[1..] + [sep] + y;
      SplitAfterField(x[1..], sep, y);
      assert [x[0]] + x[1..] == x;
    }
  }

  /** The last position of `c` in `s`. */
  function LastIndexOf(s: string, c: char): (r: Option<nat>)
    ensures r.Some? ==> r.value < |s| && s[r.value] == c && c !in s[r.value + 1..]
    ensures r.None? ==> c !in s
    decreases |s|
  {
    if s == [] then None
    else if s[|s| - 1] == c then Some(|s| - 1)
    else
      var r := LastIndexOf(s[..|s| - 1], c);
      assert r.Some? ==> s[r.value + 1..] == s[..|s| - 1][r.value + 1..] + [s[|s| - 1]];
      assert s == s[..|s| - 1] + [s[|s| - 1]];
      r
  }

  /** Python's `s.rsplit(sep, 1)`: at most two fields, cut at the last separator. */
  function RSplitOnce(s: string, sep: char): (parts: seq<string>)
    ensures 1 <= |parts| <= 2
    ensures Join(parts, sep) == s
    ensures sep !in parts[|parts| - 1]
    ensures |parts| == 1 <==> sep !in s
  {
    match LastIndexOf(s, sep)
    case None => [s]
    case Some(k) =>
      assert s == s[..k] + [sep] + s[k + 1..];
      [s[..k], s[k + 1..]]
  }

  /** The field after the last separator is the one without a separator. */
  lemma RSplitAtLast(x: string, sep: char, y: string)
    requires sep !in y
    ensures RSplitOnce(x + [sep] + y, sep) == [x, y]
  {
    var s := x + [sep] + y;
    var k := LastIndexOf(s, sep);
    assert s[|x|] == sep;
    assert k == Some(|x|);
    assert s[..|x|] == x && s[|x| + 1..] == y;
  }

  // ---------------------------------------------------------------------------
  // int()
  // ---------------------------------------------------------------------------

  /** `\d` of a Python regular expression without the UNICODE flag. */
  predicate IsDigit(c: char) {
    '0' <= c <= '9'
  }

  predicate AllDigits(s: string) {
    forall i :: 0 <= i < |s| ==> IsDigit(s[i])
  }

  /** The value of a decimal digit string. */
  function DigitsValue(s: string): nat
    requires AllDigits(s)
    decreases |s|
  {
    if s == [] then 0 else DigitsValue(s[..|s| - 1]) * 10 + (s[|s| - 1] as int - '0' as int)
  }

  /** The decimal digits of `n`, most significant first, without leading zeros. */
  function NatToString(n: nat): (s: string)
    ensures |s| >= 1 && AllDigits(s)
    ensures n >= 10 ==> s[0] != '0'
  {
    if n < 10 then [('0' as int + n) as char]
    else NatToString(n / 10) + [('0' as int + n % 10) as char]
  }

  lemma {:induction false} DigitsValueOfNatToString(n: nat)
    ensures DigitsValue(NatToString(n)) == n
  {
    var s := NatToString(n);
    if n >= 10 {
      DigitsValueOfNatToString(n / 10);
      assert s[..|s| - 1] == NatToString(n / 10);
    }
  }

  /** Python's `str(n)` for an integer. */
  function IntToString(n: int): string {
    if n < 0 then "-" + NatToString(-n) else NatToString(n)
  }

  /** Python's `int(s)` on a text: surrounding whitespace, an optional sign,
      then one or more decimal digits; anything else raises ValueError (None). */
  function ParseInt(s: string): (r: Option<int>)
    ensures r.Some? ==> exists t :: |t| >= 1 && AllDigits(t) && (r.value == DigitsValue(t) || r.value == -(DigitsValue(t) as int))
  {
    SignedDigits(StripSpace(s))
  }

  /** What `int` reads once the whitespace is gone: an optional sign, then
      one or more decimal digits. */
  function SignedDigits(t: string): (r: Option<int>)
    ensures r.Some? ==> exists d :: |d| >= 1 && AllDigits(d) && (r.value == DigitsValue(d) || r.value == -(DigitsValue(d) as int))
  {
    if |t| >= 2 && (t[0] == '+' || t[0] == '-') && AllDigits(t[1..]) then
      var d := t[1..];
      var v: int := DigitsValue(d);
      assert |d| >= 1 && AllDigits(d);
      Some(if t[0] == '-' then -v else v)
    else if |t| >= 1 && AllDigits(t) then Some(DigitsValue(t))
    else None
  }

  /** `int(str(n)) == n` for `n >= 0`. */
  lemma ParseIntOfNatToString(n: nat)
    ensures ParseInt(NatToString(n)) == Some(n)
  {
    var s := NatToString(n);
    StripKeeps(s, IsSpace);
    DigitsValueOfNatToString(n);
    assert !(s[0] == '+' || s[0] == '-');
  }

  /** A minus sign followed by digits reads as the negated digits. */
  lemma SignedDigitsMinus(t: string)
    requires |t| >= 2 && t[0] == '-' && AllDigits(t[1..])
    ensures SignedDigits(t) == Some(-(DigitsValue(t[1..]) as int))
  {
  }

  /** `int(str(n)) == n` for `n < 0`. */
  lemma ParseIntOfNegative(n: int)
    requires n < 0
    ensures ParseInt("-" + NatToString(-n)) == Some(n)
  {
    var d := NatToString(-n);
    var s := "-" + d;
    StripKeeps(s, IsSpace);
    assert s[1..] == d;
    DigitsValueOfNatToString(-n);
    assert DigitsValue(s[1..]) == -n;
    SignedDigitsMinus(s);
  }

  /** `int(str(n)) == n`. */
  lemma ParseIntRoundTrip(n: int)
    ensures ParseInt(IntToString(n)) == Some(n)
  {
    if n < 0 {
      ParseIntOfNegative(n);
    } else {
      ParseIntOfNatToString(n);
    }
  }
}
