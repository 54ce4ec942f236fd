/**
  Base64 as the reply serialiser uses it. Node's `Buffer.toString('base64')` is the encoding of
  section 4 of RFC 4648 (standard alphabet, `=` padding); the responder then rewrites `+` to `-`,
  `/` to `_` and strips trailing `=`, which yields the URL- and filename-safe encoding of
  section 5 of RFC 4648 without padding. A decoder for both alphabets serves as the partner
  against which the round trips are proved.
 */
module Base64 {
  import opened Wrappers

  type Byte = b: int | 0 <= b < 256

  type Sextet = i: int | 0 <= i < 64

  /** The digit for a 6-bit value: `+` and `/` in the standard alphabet, `-` and `_` in the URL-safe one. */
  function Digit(i: Sextet, url: bool): (c: char)
    ensures IsDigit(c, url)
  {
    if i < 26 then ('A' as int + i) as char
    else if i < 52 then ('a' as int + (i - 26)) as char
    else if i < 62 then ('0' as int + (i - 52)) as char
    else if i == 62 then (if url then '-' else '+')
    else (if url then '_' else '/')
  }

  /** Membership in the 64-character alphabet; `=` never belongs to it. */
  predicate IsDigit(c: char, url: bool) {
    ('A' <= c <= 'Z') || ('a' <= c <= 'z') || ('0' <= c <= '9') ||
    c == (if url then '-' else '+') || c == (if url then '_' else '/')
  }

  /** The 6-bit value a digit stands for. */
  function ValueOf(c: char, url: bool): (i: Sextet)
    requires IsDigit(c, url)
    ensures Digit(i, url) == c
  {
    if 'A' <= c <= 'Z' then c as int - 'A' as int
    else if 'a' <= c <= 'z' then c as int - 'a' as int + 26
    else if '0' <= c <= '9' then c as int - '0' as int + 52
    else if c == (if url then '-' else '+') then 62
    else 63
  }

  /** Each digit reads back as the value it was written for. */
  lemma ValueOfDigit(i: Sextet, url: bool)
    ensures ValueOf(Digit(i, url), url) == i
  {
  }

  /** Three bytes as four 6-bit groups, most significant bits first. */
  function Group(b0: Byte, b1: Byte, b2: Byte): (g: seq<Sextet>)
    ensures |g| == 4
  {
    [b0 / 4, (b0 % 4) * 16 + b1 / 16, (b1 % 16) * 4 + b2 / 64, b2 % 64]
  }

  /** Four 6-bit groups as the three bytes they spell. */
  function Ungroup(s0: Sextet, s1: Sextet, s2: Sextet, s3: Sextet): (b: seq<Byte>)
    ensures |b| == 3
  {
    [s0 * 4 + s1 / 16, (s1 % 16) * 16 + s2 / 4, (s2 % 4) * 64 + s3]
  }

  /** Regrouping is undone by ungrouping. */
  lemma UngroupGroup(b0: Byte, b1: Byte, b2: Byte)
    ensures var g := Group(b0, b1, b2); Ungroup(g[0], g[1], g[2], g[3]) == [b0, b1, b2]
  {
  }

  /**
    The 6-bit groups of a byte string: every three bytes give four groups, and a final one or two
    bytes, completed with zero bits, give two or three.
   */
  function Sextets(b: seq<Byte>): (r: seq<Sextet>)
    ensures |r| == 4 * (|b| / 3) + (if |b| % 3 == 0 then 0 else |b| % 3 + 1)
    decreases |b|
  {
    if |b| == 0 then []
    else if |b| == 1 then Group(b[0], 0, 0)[..2]
    else if |b| == 2 then Group(b[0], b[1], 0)[..3]
    else Group(b[0], b[1], b[2]) + Sextets(b[3..])
  }

  /** The digits of a sequence of groups. */
  function Digits(x: seq<Sextet>, url: bool): (s: string)
    ensures |s| == |x|
    ensures forall k :: 0 <= k < |s| ==> IsDigit(s[k], url)
  {
    seq(|x|, k requires 0 <= k < |x| => Digit(x[k], url))
  }

  /** The `=` padding that completes the last quantum of `n` bytes to four characters. */
  function Padding(n: nat): string {
    if n % 3 == 1 then "==" else if n % 3 == 2 then "=" else ""
  }

  /** `Buffer.from(bytes).toString('base64')`: section 4 of RFC 4648, padded with `=`. */
  function EncodeStd(b: seq<Byte>): (s: string)
    ensures |s| % 4 == 0 && |s| == 4 * ((|b| + 2) / 3)
  {
    Digits(Sextets(b), false) + Padding(|b|)
  }

  /** `s.replace(/x/g, y)` for a single character `x`. */
  function ReplaceAll(s: string, x: char, y: char): (r: string)
    ensures |r| == |s|
    ensures forall k :: 0 <= k < |s| ==> r[k] == (if s[k] == x then y else s[k])
  {
    seq(|s|, k requires 0 <= k < |s| => if s[k] == x then y else s[k])
  }

  /** `s.replace(/=+$/, '')` with `c` for `=`: the longest run of `c` at the end is removed. */
  function StripTrailing(s: string, c: char): (r: string)
    ensures r <= s
    ensures |r| == 0 || r[|r| - 1] != c
    ensures forall k :: |r| <= k < |s| ==> s[k] == c
    decreases |s|
  {
    if |s| > 0 && s[|s| - 1] == c then StripTrailing(s[..|s| - 1], c) else s
  }

  /**
    The `raw` field of the send request (lines 145-149): standard base64, then `+` to `-`,
    `/` to `_`, then trailing `=` removed.
   */
  function EncodeRaw(b: seq<Byte>): (s: string)
  {
    StripTrailing(ReplaceAll(ReplaceAll(EncodeStd(b), '+', '-'), '/', '_'), '=')
  }

  /** The `=` padding a decoder expects back on an unpadded text. */
  function Repad(s: string): (r: string)
    ensures |r| % 4 == 0 && |s| <= |r| < |s| + 4
    ensures r[..|s|] == s && forall k :: |s| <= k < |r| ==> r[k] == '='
  {
    s + seq((4 - |s| % 4) % 4, _ => '=')
  }

  /**
    Decoding of a padded text in either alphabet: four digits give three bytes; a final quantum
    of two or three digits followed by `==` or `=` gives one or two. Anything else is rejected.
   */
  function Decode(s: string, url: bool): (r: Option<seq<Byte>>)
    decreases |s|
  {
    if |s| == 0 then Some([])
    else if |s| < 4 || !IsDigit(s[0], url) || !IsDigit(s[1], url) then None
    else
      var s0, s1 := ValueOf(s[0], url), ValueOf(s[1], url);
      if |s| == 4 && s[2] == '=' && s[3] == '=' then Some(Ungroup(s0, s1, 0, 0)[..1])
      else if !IsDigit(s[2], url) then None
      else
        var s2 := ValueOf(s[2], url);
        if |s| == 4 && s[3] == '=' then Some(Ungroup(s0, s1, s2, 0)[..2])
        else if !IsDigit(s[3], url) then None
        else match Decode(s[4..], url)
          case None => None
          case Some(rest) => Some(Ungroup(s0, s1, s2, ValueOf(s[3], url)) + rest)
  }

  /** Digits distribute over concatenation. */
  lemma DigitsAppend(x: seq<Sextet>, y: seq<Sextet>, p: string, url: bool)
    ensures Digits(x + y, url) + p == Digits(x, url) + (Digits(y, url) + p)
  {
    assert Digits(x + y, url) == Digits(x, url) + Digits(y, url);
  }

  /** A quantum of four digits decodes to its three bytes, followed by whatever the rest decodes to. */
  lemma DecodeQuantum(g: seq<Sextet>, t: string, url: bool)
    requires |g| == 4
    ensures Decode(Digits(g, url) + t, url) ==
      match Decode(t, url)
      case None => None
      case Some(rest) => Some(Ungroup(g[0], g[1], g[2], g[3]) + rest)
  {
    var s := Digits(g, url) + t;
    forall k | 0 <= k < 4 ensures IsDigit(s[k], url) && ValueOf(s[k], url) == g[k] {
      ValueOfDigit(g[k], url);
    }
    assert s[4..] == t;
  }

  /** A final single byte: two digits and `==`. */
  lemma DecodeLastByte(b0: Byte, url: bool)
    ensures Decode(Digits(Sextets([b0]), url) + Padding(1), url) == Some([b0])
  {
    var x := Sextets([b0]);
    ValueOfDigit(x[0], url);
    ValueOfDigit(x[1], url);
    var s := Digits(x, url) + Padding(1);
    assert s == [Digit(x[0], url), Digit(x[1], url), '=', '='];
    assert x[0] == b0 / 4 && x[1] == (b0 % 4) * 16;
    assert x[1] / 16 == b0 % 4;
    assert Ungroup(x[0], x[1], 0, 0)[..1] == [b0];
    assert Decode(s, url) == Some(Ungroup(ValueOf(s[0], url), ValueOf(s[1], url), 0, 0)[..1]);
  }

  /** A final pair of bytes: three digits and `=`. */
  lemma DecodeLastPair(b0: Byte, b1: Byte, url: bool)
    ensures Decode(Digits(Sextets([b0, b1]), url) + Padding(2), url) == Some([b0, b1])
  {
    var x := Sextets([b0, b1]);
    ValueOfDigit(x[0], url);
    ValueOfDigit(x[1], url);
    ValueOfDigit(x[2], url);
    var s := Digits(x, url) + Padding(2);
    assert s == [Digit(x[0], url), Digit(x[1], url), Digit(x[2], url), '='];
    assert x[0] == b0 / 4 && x[1] == (b0 % 4) * 16 + b1 / 16 && x[2] == (b1 % 16) * 4;
    assert x[1] / 16 == b0 % 4 && x[1] % 16 == b1 / 16 && x[2] / 4 == b1 % 16;
    assert Ungroup(x[0], x[1], x[2], 0)[..2] == [b0, b1];
    assert Decode(s, url) == Some(Ungroup(ValueOf(s[0], url), ValueOf(s[1], url), ValueOf(s[2], url), 0)[..2]);
  }

  /** The groups of three or more bytes start with the group of the first three. */
  lemma SextetsStep(b: seq<Byte>)
    requires |b| >= 3
    ensures Sextets(b) == Group(b[0], b[1], b[2]) + Sextets(b[3..])
  {
  }

  /** Padding depends only on the length modulo three. */
  lemma PaddingStep(n: nat)
    requires n >= 3
    ensures Padding(n) == Padding(n - 3)
  {
  }

  /** The encoded text of three or more bytes starts with the digits of the first quantum. */
  lemma EncodedStep(b: seq<Byte>, url: bool)
    requires |b| >= 3
    ensures Digits(Sextets(b), url) + Padding(|b|) ==
            Digits(Group(b[0], b[1], b[2]), url) + (Digits(Sextets(b[3..]), url) + Padding(|b| - 3))
  {
    PaddingStep(|b|);
    SextetsStep(b);
    DigitsAppend(Group(b[0], b[1], b[2]), Sextets(b[3..]), Padding(|b| - 3), url);
  }

  /** One step of the round trip: a leading quantum of three bytes in front of a decodable rest. */
  lemma DecodeStep(b: seq<Byte>, t: string, url: bool)
    requires |b| >= 3
    requires Decode(t, url) == Some(b[3..])
    ensures Decode(Digits(Group(b[0], b[1], b[2]), url) + t, url) == Some(b)
  {
    DecodeQuantum(Group(b[0], b[1], b[2]), t, url);
    UngroupGroup(b[0], b[1], b[2]);
    assert b == [b[0], b[1], b[2]] + b[3..];
  }

  /** Decoding the padded digits of any byte string in either alphabet gives the bytes back. */
  lemma {:induction false} DecodeEncoded(b: seq<Byte>, url: bool)
    ensures Decode(Digits(Sextets(b), url) + Padding(|b|), url) == Some(b)
    decreases |b|
  {
    if |b| == 0 {
      assert Digits(Sextets(b), url) + Padding(|b|) == "";
    } else if |b| == 1 {
      assert b == [b[0]];
      DecodeLastByte(b[0], url);
    } else if |b| == 2 {
      assert b == [b[0], b[1]];
      DecodeLastPair(b[0], b[1], url);
    } else {
      var t := Digits(Sextets(b[3..]), url) + Padding(|b| - 3);
      DecodeEncoded(b[3..], url);
      EncodedStep(b, url);
      DecodeStep(b, t, url);
    }
  }

  /** The standard encoding decodes back to the bytes (what a reader of an RFC 2047 "B" word does). */
  lemma DecodeStd(b: seq<Byte>)
    ensures Decode(EncodeStd(b), false) == Some(b)
  {
    DecodeEncoded(b, false);
  }

  /** A run of `c` appended to a text that ends otherwise is exactly what stripping removes. */
  lemma {:induction false} StripRun(d: string, p: string, c: char)
    requires |d| == 0 || d[|d| - 1] != c
    requires forall k :: 0 <= k < |p| ==> p[k] == c
    ensures StripTrailing(d + p, c) == d
    decreases |p|
  {
    if |p| > 0 {
      assert (d + p)[..|d + p| - 1] == d + p[..|p| - 1];
      StripRun(d, p[..|p| - 1], c);
    } else {
      assert d + p == d;
    }
  }

  /**
    The source's chain of replacements turns the standard encoding into the URL-safe digits of
    section 5 of RFC 4648, with the padding gone.
   */
  lemma RawIsUnpaddedUrl(b: seq<Byte>)
    ensures EncodeRaw(b) == Digits(Sextets(b), true)
  {
    var x := Sextets(b);
    var std := EncodeStd(b);
    var replaced := ReplaceAll(ReplaceAll(std, '+', '-'), '/', '_');
    var d := Digits(x, true);
    var p := Padding(|b|);
    assert replaced == d + p by {
      forall k | 0 <= k < |std| ensures replaced[k] == (d + p)[k] {
        if k < |x| {
          assert std[k] == Digit(x[k], false);
        } else {
          assert std[k] == p[k - |x|];
        }
      }
    }
    assert forall k :: 0 <= k < |d| ==> d[k] != '=';
    StripRun(d, p, '=');
  }

  /**
    The shape of the `raw` payload for `n` bytes: only `A-Z a-z 0-9 - _`, no trailing `=`, and
    `4*(n/3)` characters plus two or three for a final one or two bytes.
   */
  lemma RawShape(b: seq<Byte>)
    ensures forall k :: 0 <= k < |EncodeRaw(b)| ==> IsDigit(EncodeRaw(b)[k], true)
    ensures '=' !in EncodeRaw(b)
    ensures |EncodeRaw(b)| == 4 * (|b| / 3) + (if |b| % 3 == 0 then 0 else |b| % 3 + 1)
  {
    RawIsUnpaddedUrl(b);
  }

  /** Re-padding the digits of `n` bytes puts back exactly the padding of the standard encoding. */
  lemma RepadRestores(d: string, n: nat)
    requires |d| == 4 * (n / 3) + (if n % 3 == 0 then 0 else n % 3 + 1)
    ensures Repad(d) == d + Padding(n)
  {
    var k := n / 3;
    assert |d| % 4 == (if n % 3 == 0 then 0 else n % 3 + 1) by {
      assert |d| == 4 * k + (if n % 3 == 0 then 0 else n % 3 + 1);
    }
  }

  /** Re-padding the `raw` payload and decoding it in the URL-safe alphabet gives the bytes back. */
  lemma RawRoundTrip(b: seq<Byte>)
    ensures Decode(Repad(EncodeRaw(b)), true) == Some(b)
  {
    RawIsUnpaddedUrl(b);
    RepadRestores(Digits(Sextets(b), true), |b|);
    DecodeEncoded(b, true);
  }
}
