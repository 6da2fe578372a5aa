/** Base 64 encoding with padding, as defined in section 4 of RFC 4648 (the
    encoding of Python's `base64.b64encode`), and the canonical decoder that
    inverts it. */
module Base64 {

  import opened Wrappers
  import opened Bytes

  /** The pad character. */
  const PAD: char := '='

  /** The 64 characters of the alphabet (Table 1 of RFC 4648). */
  predicate IsAlphabet(c: char) {
    ('A' <= c <= 'Z') || ('a' <= c <= 'z') || ('0' <= c <= '9') || c == '+' || c == '/'
  }

  /** The character that encodes the 6-bit value `i`. */
  function Char(i: int): (c: char)
    requires 0 <= i < 64
    ensures IsAlphabet(c)
  {
    if i < 26 then ('A' as int + i) as char
    else if i < 52 then ('a' as int + (i - 26)) as char
    else if i < 62 then ('0' as int + (i - 52)) as char
    else if i == 62 then '+'
    else '/'
  }

  /** The 6-bit value an alphabet character encodes. */
  function Index(c: char): (i: int)
    requires IsAlphabet(c)
    ensures 0 <= i < 64 && Char(i) == c
  {
    if 'A' <= c <= 'Z' then c as int - 'A' as int
    else if 'a' <= c <= 'z' then c as int - 'a' as int + 26
    else if '0' <= c <= '9' then c as int - '0' as int + 52
    else if c == '+' then 62
    else 63
  }

  lemma IndexOfChar(i: int)
    requires 0 <= i < 64
    ensures Index(Char(i)) == i
  {
  }

  /** One group of one to three input bytes as four output characters; a
      group of fewer than three bytes is completed with zero bits and `=`. */
  function EncodeGroup(g: seq<Byte>): (q: string)
    requires 1 <= |g| <= 3
    ensures |q| == 4
  {
    if |g| == 1 then
      [Char(g[0] / 4), Char(g[0] % 4 * 16), PAD, PAD]
    else if |g| == 2 then
      [Char(g[0] / 4), Char(g[0] % 4 * 16 + g[1] / 16), Char(g[1] % 16 * 4), PAD]
    else
      [Char(g[0] / 4), Char(g[0] % 4 * 16 + g[1] / 16), Char(g[1] % 16 * 4 + g[2] / 64), Char(g[2] % 64)]
  }

  /** The base 64 encoding of `b`: 24-bit groups from left to right, padding
      only in the final group. */
  function Encode(b: seq<Byte>): string
    decreases |b|
  {
    if b == [] then []
    else if |b| < 3 then EncodeGroup(b)
    else EncodeGroup(b[..3]) + Encode(b[3..])
  }

  /** Four characters for every started group of three bytes. */
  lemma {:induction false} EncodeLength(b: seq<Byte>)
    ensures |Encode(b)| == 4 * ((|b| + 2) / 3)
    decreases |b|
  {
    if |b| >= 3 {
      EncodeLength(b[3..]);
      assert (|b| + 2) / 3 == (|b| - 1) / 3 + 1;
    }
  }

  /** Four characters as one to three bytes. Padding is accepted only in the
      final group (`last`), and the bits that padding discards must be zero,
      so that each byte string has exactly one encoding (section 3.5 of
      RFC 4648). */
  function DecodeGroup(q: string, last: bool): (r: Option<seq<Byte>>)
    requires |q| == 4
    ensures r.Some? ==> 1 <= |r.value| <= 3 && (|r.value| < 3 ==> last)
  {
    if !IsAlphabet(q[0]) || !IsAlphabet(q[1]) then None
    else
      var i0, i1 := Index(q[0]), Index(q[1]);
      if q[2] == PAD && q[3] == PAD then
        if last && i1 % 16 == 0 then Some([i0 * 4 + i1 / 16]) else None
      else if !IsAlphabet(q[2]) then None
      else
        var i2 := Index(q[2]);
        if q[3] == PAD then
          if last && i2 % 4 == 0 then Some([i0 * 4 + i1 / 16, i1 % 16 * 16 + i2 / 4]) else None
        else if !IsAlphabet(q[3]) then None
        else
          var i3 := Index(q[3]);
          Some([i0 * 4 + i1 / 16, i1 % 16 * 16 + i2 / 4, i2 % 4 * 64 + i3])
  }

  /** The bytes whose encoding is `s`, or None when `s` is not the encoding
      of any byte string. */
  function Decode(s: string): (r: Option<seq<Byte>>)
    decreases |s|
  {
    if s == [] then Some([])
    else if |s| < 4 then None
    else
      match DecodeGroup(s[..4], |s| == 4)
      case None => None
      case Some(g) =>
        match Decode(s[4..])
        case None => None
        case Some(rest) => Some(g + rest)
  }

  /** Splitting a value into a high and a low part and joining them again. */
  lemma Join(hi: int, lo: int, k: int)
    requires k == 4 || k == 16 || k == 64
    requires 0 <= lo < k
    ensures (hi * k + lo) / k == hi && (hi * k + lo) % k == lo
  {
    if k == 4 {
      assert hi * k + lo == hi * 4 + lo;
    } else if k == 16 {
      assert hi * k + lo == hi * 16 + lo;
    } else {
      assert hi * k + lo == hi * 64 + lo;
    }
  }

  lemma DecodeEncodeOne(a: Byte)
    ensures DecodeGroup(EncodeGroup([a]), true) == Some([a])
  {
    var i0, i1 := a / 4, a % 4 * 16;
    IndexOfChar(i0);
    IndexOfChar(i1);
    Join(a % 4, 0, 16);
    var q := EncodeGroup([a]);
    assert q == [Char(i0), Char(i1), PAD, PAD];
    assert Index(q[0]) * 4 + Index(q[1]) / 16 == a;
  }

  lemma DecodeEncodeTwo(a: Byte, b: Byte)
    ensures DecodeGroup(EncodeGroup([a, b]), true) == Some([a, b])
  {
    var i0, i1, i2 := a / 4, a % 4 * 16 + b / 16, b % 16 * 4;
    IndexOfChar(i0);
    IndexOfChar(i1);
    IndexOfChar(i2);
    Join(a % 4, b / 16, 16);
    Join(b % 16, 0, 4);
    var q := EncodeGroup([a, b]);
    assert q == [Char(i0), Char(i1), Char(i2), PAD];
    assert Index(q[0]) * 4 + Index(q[1]) / 16 == a;
    assert Index(q[1]) % 16 * 16 + Index(q[2]) / 4 == b;
  }

  lemma DecodeEncodeThree(a: Byte, b: Byte, c: Byte, last: bool)
    ensures DecodeGroup(EncodeGroup([a, b, c]), last) == Some([a, b, c])
  {
    var i0, i1, i2, i3 := a / 4, a % 4 * 16 + b / 16, b % 16 * 4 + c / 64, c % 64;
    IndexOfChar(i0);
    IndexOfChar(i1);
    IndexOfChar(i2);
    IndexOfChar(i3);
    Join(a % 4, b / 16, 16);
    Join(b % 16, c / 64, 4);
    var q := EncodeGroup([a, b, c]);
    assert q == [Char(i0), Char(i1), Char(i2), Char(i3)];
    assert Index(q[0]) * 4 + Index(q[1]) / 16 == a;
    assert Index(q[1]) % 16 * 16 + Index(q[2]) / 4 == b;
    assert Index(q[2]) % 4 * 64 + Index(q[3]) == c;
  }

  lemma DecodeEncodeGroup(g: seq<Byte>, last: bool)
    requires 1 <= |g| <= 3
    requires |g| < 3 ==> last
    ensures DecodeGroup(EncodeGroup(g), last) == Some(g)
  {
    if |g| == 1 {
      assert g == [g[0]];
      DecodeEncodeOne(g[0]);
    } else if |g| == 2 {
      assert g == [g[0], g[1]];
      DecodeEncodeTwo(g[0], g[1]);
    } else {
      assert g == [g[0], g[1], g[2]];
      DecodeEncodeThree(g[0], g[1], g[2], last);
    }
  }

  lemma EncodeDecodeGroup(q: string, last: bool)
    requires |q| == 4 && DecodeGroup(q, last).Some?
    ensures EncodeGroup(DecodeGroup(q, last).value) == q
  {
    var g := DecodeGroup(q, last).value;
    var i0, i1 := Index(q[0]), Index(q[1]);
    Join(i0, i1 / 16, 4);
    assert g[0] / 4 == i0 && g[0] % 4 == i1 / 16;
    if |g| == 1 {
      assert g[0] % 4 * 16 == i1;
    } else {
      var i2 := Index(q[2]);
      Join(i1 % 16, i2 / 4, 16);
      assert g[1] / 16 == i1 % 16 && g[1] % 16 == i2 / 4;
      assert g[0] % 4 * 16 + g[1] / 16 == i1;
      if |g| == 2 {
        assert g[1] % 16 * 4 == i2;
      } else {
        var i3 := Index(q[3]);
        Join(i2 % 4, i3, 64);
        assert g[2] / 64 == i2 % 4 && g[2] % 64 == i3;
        assert g[1] % 16 * 4 + g[2] / 64 == i2;
      }
    }
  }

  /** Decoding an encoding gives the bytes back. */
  lemma {:induction false} DecodeEncode(b: seq<Byte>)
    ensures Decode(Encode(b)) == Some(b)
    decreases |b|
  {
    if b != [] {
      var s := Encode(b);
      if |b| < 3 {
        assert s[..4] == EncodeGroup(b) && s[4..] == [];
        DecodeEncodeGroup(b, true);
        assert b + [] == b;
      } else {
        assert s[..4] == EncodeGroup(b[..3]) && s[4..] == Encode(b[3..]);
        DecodeEncodeGroup(b[..3], |s| == 4);
        DecodeEncode(b[3..]);
        assert b[..3] + b[3..] == b;
      }
    }
  }

  /** Every string the decoder accepts is the encoding of what it decodes
      to: together with DecodeEncode, `Decode(s) == Some(b)` holds exactly
      when `Encode(b) == s`. */
  lemma {:induction false} EncodeDecode(s: string)
    requires Decode(s).Some?
    ensures Encode(Decode(s).value) == s
    decreases |s|
  {
    if s != [] {
      var g := DecodeGroup(s[..4], |s| == 4).value;
      var rest := Decode(s[4..]).value;
      EncodeDecodeGroup(s[..4], |s| == 4);
      EncodeDecode(s[4..]);
      var b := g + rest;
      if |g| < 3 {
        assert rest == [];
        assert b == g && b[..|b|] == g && b[|b|..] == [];
      } else {
        assert b[..3] == g && b[3..] == rest;
      }
      assert s == s[..4] + s[4..];
    }
  }

  /** The encoding is one-to-one. */
  lemma EncodeInjective(a: seq<Byte>, b: seq<Byte>)
    requires Encode(a) == Encode(b)
    ensures a == b
  {
    DecodeEncode(a);
    DecodeEncode(b);
  }

  /** Within one group, the pad character fills exactly the positions the
      missing bytes leave empty. */
  lemma GroupPadding(g: seq<Byte>)
    requires 1 <= |g| <= 3
    ensures var q := EncodeGroup(g);
      && IsAlphabet(q[0]) && IsAlphabet(q[1])
      && (IsAlphabet(q[2]) <==> |g| >= 2) && (q[2] == PAD <==> |g| == 1)
      && (IsAlphabet(q[3]) <==> |g| == 3) && (q[3] == PAD <==> |g| < 3)
  {
  }

  /** Whether the first `n` characters of `s` are all in the alphabet. */
  predicate AlphabetBelow(s: string, n: int) {
    forall i :: 0 <= i < n && i < |s| ==> IsAlphabet(s[i])
  }

  lemma AlphabetConcat(q: string, t: string, n: int)
    requires AlphabetBelow(q, |q|) && AlphabetBelow(t, n)
    ensures AlphabetBelow(q + t, |q| + n)
  {
    forall i | 0 <= i < |q| + n && i < |q + t|
      ensures IsAlphabet((q + t)[i])
    {
      if i >= |q| {
        assert (q + t)[i] == t[i - |q|];
      }
    }
  }

  /** Whether `s` ends the way an encoding whose input leaves `r` bytes
      over after its whole groups ends: no pad character when `r` is 0,
      two when it is 1 and one when it is 2, with every earlier character
      in the alphabet. */
  predicate Padded(s: string, r: int) {
    && (r == 0 ==> AlphabetBelow(s, |s|))
    && (r == 1 ==> |s| >= 2 && AlphabetBelow(s, |s| - 2) && s[|s| - 2] == PAD && s[|s| - 1] == PAD)
    && (r == 2 ==> |s| >= 1 && AlphabetBelow(s, |s| - 1) && s[|s| - 1] == PAD)
  }

  /** Whole alphabet characters put in front keep the padding of what
      follows. */
  lemma PrefixKeepsPadding(q: string, t: string, r: int)
    requires AlphabetBelow(q, |q|) && Padded(t, r)
    ensures Padded(q + t, r)
  {
    var s := q + t;
    if r == 0 {
      AlphabetConcat(q, t, |t|);
    } else if r == 1 {
      AlphabetConcat(q, t, |t| - 2);
      assert s[|s| - 2] == t[|t| - 2] && s[|s| - 1] == t[|t| - 1];
    } else if r == 2 {
      AlphabetConcat(q, t, |t| - 1);
      assert s[|s| - 1] == t[|t| - 1];
    }
  }

  /** Taking a whole group off leaves the same number of bytes over. */
  lemma GroupRemainder(n: int)
    requires n >= 3
    ensures (n - 3) % 3 == n % 3
  {
  }

  /** Every encoding is padded according to the bytes its input leaves
      over. */
  lemma {:induction false} EncodePadded(b: seq<Byte>)
    ensures Padded(Encode(b), |b| % 3)
    decreases |b|
  {
    if b == [] {
    } else if |b| < 3 {
      GroupPadding(b);
    } else {
      var q, t := EncodeGroup(b[..3]), Encode(b[3..]);
      assert Encode(b) == q + t;
      GroupPadding(b[..3]);
      assert AlphabetBelow(q, |q|);
      EncodePadded(b[3..]);
      GroupRemainder(|b|);
      PrefixKeepsPadding(q, t, |b| % 3);
    }
  }

  /** Padding, as section 4 of RFC 4648 prescribes it: none when the input
      length is a multiple of three; otherwise the final group ends in two
      pad characters when one byte is left over and in one when two are,
      and every character before them is in the alphabet. */
  lemma EncodePadding(b: seq<Byte>)
    ensures var s := Encode(b);
      && (|b| % 3 == 0 ==> AlphabetBelow(s, |s|))
      && (|b| % 3 == 1 ==> AlphabetBelow(s, |s| - 2) && s[|s| - 2] == PAD && s[|s| - 1] == PAD)
      && (|b| % 3 == 2 ==> AlphabetBelow(s, |s| - 1) && s[|s| - 1] == PAD)
  {
    EncodePadded(b);
  }

  /** Every character of an encoding is in the alphabet or is the pad
      character. */
  lemma EncodeAlphabet(b: seq<Byte>)
    ensures forall i :: 0 <= i < |Encode(b)| ==> IsAlphabet(Encode(b)[i]) || Encode(b)[i] == PAD
  {
    EncodePadding(b);
  }
}
