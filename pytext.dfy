/** The parts of Python's text semantics that the client relies on:
    `str.isspace`, `str.strip()`, `str.replace(' ', '')` and the `str()`
    conversion of a value. */
module PyText {

  /** Python's whitespace: the characters for which `str.isspace()` is
      true, those with Unicode bidirectional type WS, B or S, or general
      category Zs. */
  const WHITESPACE: set<char> :=
    { '\U{0009}', '\U{000A}', '\U{000B}', '\U{000C}', '\U{000D}',
      '\U{001C}', '\U{001D}', '\U{001E}', '\U{001F}', '\U{0020}',
      '\U{0085}', '\U{00A0}', '\U{1680}',
      '\U{2000}', '\U{2001}', '\U{2002}', '\U{2003}', '\U{2004}', '\U{2005}',
      '\U{2006}', '\U{2007}', '\U{2008}', '\U{2009}', '\U{200A}',
      '\U{2028}', '\U{2029}', '\U{202F}', '\U{205F}', '\U{3000}' }

  predicate IsSpace(c: char) {
    c in WHITESPACE
  }

  /** Where `s.strip()` starts: the index of the first character at or
      after `i` that is not whitespace, or `|s|` if there is none. */
  function SkipLeading(s: string, i: nat): (j: nat)
    requires i <= |s|
    ensures i <= j <= |s|
    ensures forall k :: i <= k < j ==> IsSpace(s[k])
    ensures j == |s| || !IsSpace(s[j])
    decreases |s| - i
  {
    if i < |s| && IsSpace(s[i]) then SkipLeading(s, i + 1) else i
  }

  /** Where `s.strip()` ends: the end of `s[..j]` once its trailing
      whitespace is dropped, never going below `lo`. */
  function SkipTrailing(s: string, lo: nat, j: nat): (e: nat)
    requires lo <= j <= |s|
    ensures lo <= e <= j
    ensures forall k :: e <= k < j ==> IsSpace(s[k])
    ensures e == lo || !IsSpace(s[e - 1])
  {
    if j > lo && IsSpace(s[j - 1]) then SkipTrailing(s, lo, j - 1) else j
  }

  /** Whether `r` is the slice of `s` at `i` and everything of `s` outside
      that slice is whitespace. */
  predicate IsCore(s: string, r: string, i: int) {
    && 0 <= i <= |s| - |r|
    && s[i..i + |r|] == r
    && (forall k :: 0 <= k < i ==> IsSpace(s[k]))
    && (forall k :: i + |r| <= k < |s| ==> IsSpace(s[k]))
  }

  /** `s.strip()`: the slice of `s` left once the whitespace at both ends is
      removed. Only whitespace is removed, and all of it at the two ends. */
  function Strip(s: string): (r: string)
    ensures r == [] || (!IsSpace(r[0]) && !IsSpace(r[|r| - 1]))
    ensures exists i :: IsCore(s, r, i)
  {
    var i := SkipLeading(s, 0);
    var e := SkipTrailing(s, i, |s|);
    assert IsCore(s, s[i..e], i);
    s[i..e]
  }

  /** Stripping removes no character other than whitespace. */
  lemma StripKeepsNonSpace(s: string, c: char)
    requires !IsSpace(c)
    ensures multiset(Strip(s))[c] == multiset(s)[c]
  {
    var r := Strip(s);
    var i :| IsCore(s, r, i);
    CoreKeepsNonSpace(s, r, i, c);
  }

  lemma CoreKeepsNonSpace(s: string, r: string, i: int, c: char)
    requires IsCore(s, r, i) && !IsSpace(c)
    ensures multiset(r)[c] == multiset(s)[c]
  {
    var head, tail := s[..i], s[i + |r|..];
    assert s == head + r + tail;
    assert multiset(s) == multiset(head) + multiset(r) + multiset(tail);
    forall k | 0 <= k < |tail| ensures IsSpace(tail[k]) {
      assert tail[k] == s[i + |r| + k];
    }
    OnlySpace(head, c);
    OnlySpace(tail, c);
  }

  /** A non-whitespace character does not occur in whitespace. */
  lemma OnlySpace(h: string, c: char)
    requires forall k :: 0 <= k < |h| ==> IsSpace(h[k])
    requires !IsSpace(c)
    ensures multiset(h)[c] == 0
  {
    assert c !in h;
  }

  /** Stripping a string with no whitespace at either end leaves it as it is. */
  lemma StripUnchanged(s: string)
    requires s == [] || (!IsSpace(s[0]) && !IsSpace(s[|s| - 1]))
    ensures Strip(s) == s
  {
  }

  /** `s.replace(' ', '')`: `s` with every U+0020 space deleted. */
  function RemoveSpaces(s: string): (r: string)
    ensures ' ' !in r
    ensures forall c :: c != ' ' ==> multiset(r)[c] == multiset(s)[c]
  {
    if s == [] then []
    else
      var rest := RemoveSpaces(s[1..]);
      assert s == [s[0]] + s[1..];
      if s[0] == ' ' then rest else [s[0]] + rest
  }

  /** Deleting spaces keeps the order of what remains: it distributes over
      concatenation. */
  lemma {:induction false} RemoveSpacesConcat(a: string, b: string)
    ensures RemoveSpaces(a + b) == RemoveSpaces(a) + RemoveSpaces(b)
  {
    if a != [] {
      assert (a + b)[0] == a[0] && (a + b)[1..] == a[1..] + b;
      RemoveSpacesConcat(a[1..], b);
    } else {
      assert a + b == b;
    }
  }

  /** Deleting the spaces of a string that neither starts nor ends with one
      keeps its first and its last character. */
  lemma RemoveSpacesKeepsEnds(t: string)
    requires t != [] && t[0] != ' ' && t[|t| - 1] != ' '
    ensures var r := RemoveSpaces(t); r != [] && r[0] == t[0] && r[|r| - 1] == t[|t| - 1]
  {
    var n := |t|;
    assert t == t[..n - 1] + [t[n - 1]];
    RemoveSpacesConcat(t[..n - 1], [t[n - 1]]);
    assert RemoveSpaces([t[n - 1]]) == [t[n - 1]];
  }

  /** A string with no space in it is left as it is. */
  lemma {:induction false} RemoveSpacesUnchanged(s: string)
    requires ' ' !in s
    ensures RemoveSpaces(s) == s
  {
    if s != [] {
      assert ' ' !in s[1..];
      RemoveSpacesUnchanged(s[1..]);
    }
  }

  /** The value passed where the source expects text: a string, an integer,
      or any other object, given by what its `__str__` returns. */
  datatype PyValue = Str(s: string) | Int(i: int) | Other(rendered: string)

  /** `str(v)`. */
  function ToStr(v: PyValue): string {
    match v
    case Str(s) => s
    case Int(i) => Decimal(i)
    case Other(rendered) => rendered
  }

  function Digit(d: int): (c: char)
    requires 0 <= d < 10
    ensures '0' <= c <= '9'
  {
    ('0' as int + d) as char
  }

  /** The decimal digits of `n`, most significant first, without leading
      zeros. */
  function Digits(n: nat): (s: string)
    ensures s != [] && forall i :: 0 <= i < |s| ==> '0' <= s[i] <= '9'
    ensures |s| > 1 ==> s[0] != '0'
  {
    if n < 10 then [Digit(n)] else Digits(n / 10) + [Digit(n % 10)]
  }

  /** `int.__str__`: a minus sign for negative numbers, then the digits. */
  function Decimal(i: int): string {
    if i < 0 then "-" + Digits(-i) else Digits(i)
  }

  /** The number a string of decimal digits denotes. */
  function DigitsValue(s: string): nat
    requires forall i :: 0 <= i < |s| ==> '0' <= s[i] <= '9'
  {
    if s == [] then 0 else DigitsValue(s[..|s| - 1]) * 10 + (s[|s| - 1] as int - '0' as int)
  }

  /** Reading back the digits of `n` gives `n`. */
  lemma {:induction false} DigitsValueDigits(n: nat)
    ensures DigitsValue(Digits(n)) == n
  {
    if n >= 10 {
      var s := Digits(n);
      assert s[..|s| - 1] == Digits(n / 10);
      DigitsValueDigits(n / 10);
    }
  }
}
