/** Rust strings: UTF-8 buffers (RFC 3629, section 3) indexed by byte, and the in-place edits
    that the program makes on them by character index. */
module Strings {
  import opened Basics

  /** A Unicode scalar value. */
  type Scalar = c: int | 0 <= c < 0xD800 || 0xE000 <= c <= 0x10FFFF

  function EncodeScalar(c: Scalar): (bs: seq<Byte>)
    ensures 1 <= |bs| <= 4
  {
    if c < 0x80 then [c]
    else if c < 0x800 then [0xC0 + c / 64, 0x80 + c % 64]
    else if c < 0x1_0000 then [0xE0 + c / 4096, 0x80 + c / 64 % 64, 0x80 + c % 64]
    else [0xF0 + c / 262144, 0x80 + c / 4096 % 64, 0x80 + c / 64 % 64, 0x80 + c % 64]
  }

  function Utf8(cs: seq<Scalar>): seq<Byte> {
    if cs == [] then [] else EncodeScalar(cs[0]) + Utf8(cs[1..])
  }

  /** What is left of a byte once the bits that mark it, of value `mark`, are taken off. */
  function Payload(b: int, mark: int): int {
    b - mark
  }

  /** The inverse, from the table in section 3 of RFC 3629: the lead byte tells the length, and
      every other byte carries six bits. */
  function DecodeScalar(bs: seq<Byte>): int {
    if |bs| == 1 then bs[0]
    else if |bs| == 2 then Payload(bs[0], 0xC0) * 64 + Payload(bs[1], 0x80)
    else if |bs| == 3 then
      Payload(bs[0], 0xE0) * 4096 + Payload(bs[1], 0x80) * 64 + Payload(bs[2], 0x80)
    else if |bs| == 4 then
      Payload(bs[0], 0xF0) * 262144 + Payload(bs[1], 0x80) * 4096
      + Payload(bs[2], 0x80) * 64 + Payload(bs[3], 0x80)
    else -1
  }

  lemma ScalarRoundTrip(c: Scalar)
    ensures DecodeScalar(EncodeScalar(c)) == c
  {
    assert c == c / 64 * 64 + c % 64;
    assert c / 64 == c / 64 / 64 * 64 + c / 64 % 64;
    assert c / 4096 == c / 64 / 64 && c / 262144 == c / 4096 / 64;
    assert c / 4096 == c / 4096 / 64 * 64 + c / 4096 % 64;
  }

  lemma ScalarShape(c: Scalar)
    ensures
      var bs := EncodeScalar(c);
      && (|bs| == 1 <==> c <= 0x7F) && (|bs| <= 2 <==> c <= 0x7FF) && (|bs| <= 3 <==> c <= 0xFFFF)
      && (|bs| == 1 ==> bs[0] < 0x80) && (|bs| == 2 ==> 0xC0 <= bs[0] < 0xE0)
      && (|bs| == 3 ==> 0xE0 <= bs[0] < 0xF0) && (|bs| == 4 ==> 0xF0 <= bs[0] < 0xF8)
      && (forall i :: 1 <= i < |bs| ==> 0x80 <= bs[i] < 0xC0)
  {
  }

  /** How many bytes the character that starts with `lead` takes. */
  function Width(lead: Byte): nat {
    if lead < 0x80 then 1 else if lead < 0xE0 then 2 else if lead < 0xF0 then 3 else 4
  }

  lemma WidthOfLead(c: Scalar)
    ensures Width(EncodeScalar(c)[0]) == |EncodeScalar(c)|
  {
  }

  lemma {:induction false} Utf8Concat(a: seq<Scalar>, b: seq<Scalar>)
    ensures Utf8(a + b) == Utf8(a) + Utf8(b)
  {
    if a == [] {
      assert a + b == b;
    } else {
      assert (a + b)[1..] == a[1..] + b;
      Utf8Concat(a[1..], b);
    }
  }

  /** A cut at a character is a cut of the buffer. */
  lemma Utf8Split(cs: seq<Scalar>, k: nat)
    requires k <= |cs|
    ensures |Utf8(cs[..k])| <= |Utf8(cs)|
    ensures Utf8(cs)[..|Utf8(cs[..k])|] == Utf8(cs[..k])
    ensures Utf8(cs)[|Utf8(cs[..k])|..] == Utf8(cs[k..])
  {
    assert cs[..k] + cs[k..] == cs;
    Utf8Concat(cs[..k], cs[k..]);
  }

  lemma {:induction false} Utf8IsLongEnough(cs: seq<Scalar>)
    ensures |cs| <= |Utf8(cs)|
  {
    if cs != [] {
      Utf8IsLongEnough(cs[1..]);
    }
  }

  lemma CharAt(cs: seq<Scalar>, k: nat)
    requires k < |cs|
    ensures |Utf8(cs[..k])| < |Utf8(cs)|
    ensures |Utf8(cs[..k + 1])| == |Utf8(cs[..k])| + Width(Utf8(cs)[|Utf8(cs[..k])|])
  {
    Utf8Split(cs, k);
    assert Utf8(cs[k..]) == EncodeScalar(cs[k]) + Utf8(cs[k..][1..]);
    WidthOfLead(cs[k]);
    assert Utf8(cs)[|Utf8(cs[..k])|] == Utf8(cs[k..])[0];
    assert cs[..k + 1] == cs[..k] + [cs[k]];
    Utf8Concat(cs[..k], [cs[k]]);
    assert [cs[k]][1..] == [];
    assert Utf8([cs[k]]) == EncodeScalar(cs[k]);
  }

  /** Walks the characters of `s` adding up their widths. */
  method CharIndexToByteIndex(s: seq<Byte>, charIndex: nat, ghost cs: seq<Scalar>) returns (r: Option<nat>)
    requires s == Utf8(cs)
    ensures r == if charIndex <= |cs| then Some(|Utf8(cs[..charIndex])|) else None
    ensures r.Some? ==> r.value <= |s|
  {
    if charIndex == 0 {
      assert cs[..0] == [];
      return Some(0);
    }
    var bi, ci := 0, 0;
    assert cs[..0] == [] && cs[..|cs|] == cs;
    while bi < |s|
      invariant 0 <= ci <= |cs| && ci < charIndex
      invariant bi == |Utf8(cs[..ci])| <= |s|
      decreases |cs| - ci
    {
      assert ci < |cs|;
      CharAt(cs, ci);
      bi := bi + Width(s[bi]);
      ci := ci + 1;
      Utf8Split(cs, ci);
      if ci == charIndex {
        return Some(bi);
      }
    }
    if ci < |cs| {
      CharAt(cs, ci);
    }
    r := None;
  }

  /** The byte at which the `n`-th character after the byte `base` starts. */
  method Locate(s: seq<Byte>, base: nat, n: nat, ghost cs: seq<Scalar>, ghost k: nat) returns (r: Option<nat>)
    requires s == Utf8(cs)
    requires k <= |cs| && base == |Utf8(cs[..k])|
    ensures r == if k + n <= |cs| then Some(|Utf8(cs[..k + n])|) else None
    ensures r.Some? ==> base <= r.value <= |s|
  {
    Utf8Split(cs, k);
    var i := CharIndexToByteIndex(s[base..], n, cs[k..]);
    if i == None {
      return None;
    }
    Boundary(cs, k, n);
    r := Some(base + i.value);
  }

  lemma SpliceBytes(cs: seq<Scalar>, a: nat, b: nat, with_: seq<Scalar>)
    requires a <= b <= |cs|
    ensures |Utf8(cs[..a])| <= |Utf8(cs)| && |Utf8(cs[..b])| <= |Utf8(cs)|
    ensures Utf8(cs)[..|Utf8(cs[..a])|] + Utf8(with_) + Utf8(cs)[|Utf8(cs[..b])|..]
      == Utf8(cs[..a] + with_ + cs[b..])
  {
    Utf8Split(cs, a);
    Utf8Split(cs, b);
    Utf8Concat(cs[..a], with_);
    Utf8Concat(cs[..a] + with_, cs[b..]);
  }

  lemma Boundary(cs: seq<Scalar>, k: nat, n: nat)
    requires k + n <= |cs|
    ensures |Utf8(cs[..k + n])| == |Utf8(cs[..k])| + |Utf8(cs[k..][..n])|
  {
    assert cs[..k + n] == cs[..k] + cs[k..][..n];
    Utf8Concat(cs[..k], cs[k..][..n]);
  }

  /** The length of the encoding of the first `n` characters. */
  function ByteSum(cs: seq<Scalar>, n: nat): nat
    requires n <= |cs|
  {
    if n == 0 then 0 else ByteSum(cs, n - 1) + |EncodeScalar(cs[n - 1])|
  }

  /** The length of the encoding of `cs`. */
  function ByteLen(cs: seq<Scalar>): nat {
    ByteSum(cs, |cs|)
  }

  lemma {:induction false} ByteSumIsLength(cs: seq<Scalar>, n: nat)
    requires n <= |cs|
    ensures ByteSum(cs, n) == |Utf8(cs[..n])|
  {
    if n > 0 {
      ByteSumIsLength(cs, n - 1);
      CharAt(cs, n - 1);
      Utf8Split(cs, n - 1);
      WidthOfLead(cs[n - 1]);
      assert Utf8(cs[n - 1..])[0] == EncodeScalar(cs[n - 1])[0];
    }
  }

  lemma ByteLenIsLength(cs: seq<Scalar>)
    ensures ByteLen(cs) == |Utf8(cs)|
  {
    ByteSumIsLength(cs, |cs|);
    assert cs[..|cs|] == cs;
  }

  lemma ByteLenConcat(a: seq<Scalar>, b: seq<Scalar>)
    ensures ByteLen(a + b) == ByteLen(a) + ByteLen(b)
  {
    ByteLenIsLength(a);
    ByteLenIsLength(b);
    ByteLenIsLength(a + b);
    Utf8Concat(a, b);
  }

  /** `after` is `before` with the `count` characters from the `from`-th on replaced, and `at`
      the byte at which they started; `None` leaves things alone, as the range is not within. */
  ghost predicate Replaces(before: seq<Scalar>, from: nat, count: nat, with_: seq<Scalar>,
                           at: Option<nat>, after: seq<Scalar>)
  {
    if from + count <= |before| then
      && at == Some(ByteLen(before[..from]))
      && after == before[..from] + with_ + before[from + count..]
    else at == None && after == before
  }

  /** A `String`: a buffer that is always the encoding of some characters. */
  class Text {
    var bytes: seq<Byte>
    ghost var chars: seq<Scalar>

    ghost predicate Valid()
      reads this
    {
      bytes == Utf8(chars)
    }

    constructor (chars: seq<Scalar>)
      ensures Valid() && this.chars == chars
    {
      bytes := Utf8(chars);
      this.chars := chars;
    }

    /** Replaces the characters `start..end`, counted from the byte `base`, which the `k`-th
        character starts at. Indices are `usize`. */
    method ReplaceCharRange(base: nat, start: nat, end: nat, with_: seq<Scalar>, ghost k: nat)
      returns (r: Option<nat>)
      requires Valid()
      requires k <= |chars| && base == ByteLen(chars[..k])
      modifies this
      ensures Valid()
      ensures Replaces(old(chars), k + start, WrappingSub(end, start), with_, r, chars)
    {
      ByteLenIsLength(chars[..k]);
      var from := Locate(bytes, base, start, chars, k);
      if from == None {
        return None;
      }
      var count := WrappingSub(end, start);
      var to := Locate(bytes, from.value, count, chars, k + start);
      if to == None {
        return None;
      }
      ByteLenIsLength(chars[..k + start]);
      SpliceBytes(chars, k + start, k + start + count, with_);
      bytes := bytes[..from.value] + Utf8(with_) + bytes[to.value..];
      chars := chars[..k + start] + with_ + chars[k + start + count..];
      r := from;
    }
  }
}
