/** Callback ids: the little-endian bytes of a subscription id without their most
    significant zeroes, in unpadded base64url (RFC 4648, section 5), and the routing of
    callback paths back to ids. */
module CallbackId {
  import opened Basics

  type Symbol = v: int | 0 <= v < 64

  // ---- Little-endian integers --------------------------------------------------------

  function ToLe(x: nat, n: nat): (bs: seq<Byte>)
    ensures |bs| == n
  {
    if n == 0 then [] else [x % 256] + ToLe(x / 256, n - 1)
  }

  function FromLe(bs: seq<Byte>): nat {
    if bs == [] then 0 else bs[0] + 256 * FromLe(bs[1..])
  }

  function Pow256(n: nat): nat {
    if n == 0 then 1 else 256 * Pow256(n - 1)
  }

  function Zeroes(n: nat): (bs: seq<Byte>)
    ensures |bs| == n && forall i :: 0 <= i < n ==> bs[i] == 0
  {
    seq(n, i => 0)
  }

  lemma {:induction false} FromToLe(x: nat, n: nat)
    requires x < Pow256(n)
    ensures FromLe(ToLe(x, n)) == x
  {
    if n > 0 {
      FromToLe(x / 256, n - 1);
    }
  }

  lemma {:induction false} ToFromLe(bs: seq<Byte>)
    ensures ToLe(FromLe(bs), |bs|) == bs
  {
    if bs != [] {
      var x, rest := FromLe(bs), FromLe(bs[1..]);
      assert x % 256 == bs[0] && x / 256 == rest;
      ToFromLe(bs[1..]);
    }
  }

  lemma {:induction false} FromLeIgnoresHighZeroes(bs: seq<Byte>, n: nat)
    ensures FromLe(bs + Zeroes(n)) == FromLe(bs)
  {
    if bs != [] {
      assert (bs + Zeroes(n))[1..] == bs[1..] + Zeroes(n);
      FromLeIgnoresHighZeroes(bs[1..], n);
    } else if n > 0 {
      assert (bs + Zeroes(n))[1..] == bs + Zeroes(n - 1);
      FromLeIgnoresHighZeroes(bs, n - 1);
    }
  }

  function Strip(bs: seq<Byte>): (r: seq<Byte>)
    ensures r <= bs
    ensures r != [] ==> r[|r| - 1] != 0
    ensures bs == r + Zeroes(|bs| - |r|)
  {
    if bs != [] && bs[|bs| - 1] == 0 then Strip(bs[..|bs| - 1]) else bs
  }

  // ---- Base64 ------------------------------------------------------------------------

  function EncodeSymbols(bs: seq<Byte>): seq<Symbol> {
    if |bs| == 0 then []
    else if |bs| == 1 then [bs[0] / 4, bs[0] % 4 * 16]
    else if |bs| == 2 then [bs[0] / 4, bs[0] % 4 * 16 + bs[1] / 16, bs[1] % 16 * 4]
    else [bs[0] / 4, bs[0] % 4 * 16 + bs[1] / 16, bs[1] % 16 * 4 + bs[2] / 64, bs[2] % 64]
         + EncodeSymbols(bs[3..])
  }

  // The three bytes that four symbols spell.
  function First(a: Symbol, b: Symbol): Byte { a * 4 + b / 16 }
  function Second(b: Symbol, c: Symbol): Byte { b % 16 * 16 + c / 4 }
  function Third(c: Symbol, d: Symbol): Byte { c % 4 * 64 + d }

  /** Rejects a lone symbol and bits that the last symbol carries beyond the last byte. */
  function DecodeSymbols(ss: seq<Symbol>): Option<seq<Byte>> {
    if |ss| == 0 then Some([])
    else if |ss| == 1 then None
    else if |ss| == 2 then
      if ss[1] % 16 != 0 then None else Some([First(ss[0], ss[1])])
    else if |ss| == 3 then
      if ss[2] % 4 != 0 then None else Some([First(ss[0], ss[1]), Second(ss[1], ss[2])])
    else
      match DecodeSymbols(ss[4..])
      case None => None
      case Some(rest) =>
        Some([First(ss[0], ss[1]), Second(ss[1], ss[2]), Third(ss[2], ss[3])] + rest)
  }

  function CharOf(v: Symbol): char {
    if v < 26 then 'A' + v as char
    else if v < 52 then 'a' + (v - 26) as char
    else if v < 62 then '0' + (v - 52) as char
    else if v == 62 then '-' else '_'
  }

  function SymbolOf(c: char): Option<Symbol> {
    if 'A' <= c <= 'Z' then Some((c - 'A') as int)
    else if 'a' <= c <= 'z' then Some((c - 'a') as int + 26)
    else if '0' <= c <= '9' then Some((c - '0') as int + 52)
    else if c == '-' then Some(62)
    else if c == '_' then Some(63)
    else None
  }

  /** Table 2 of RFC 4648: three runs of consecutive characters, and two more. */
  lemma UrlSafeAlphabet(v: Symbol)
    ensures CharOf(0) == 'A' && CharOf(25) == 'Z' && CharOf(26) == 'a' && CharOf(51) == 'z'
    ensures CharOf(52) == '0' && CharOf(61) == '9' && CharOf(62) == '-' && CharOf(63) == '_'
    ensures 0 < v < 62 && v != 26 && v != 52 ==> CharOf(v) as int == CharOf(v - 1) as int + 1
  {
  }

  lemma CharsAreDistinct(v: Symbol)
    ensures SymbolOf(CharOf(v)) == Some(v)
    ensures CharOf(v) != '=' && CharOf(v) != '?'
  {
    assert v < 26 ==> (CharOf(v) - 'A') as int == v;
  }

  lemma SymbolsAreDistinct(c: char)
    requires SymbolOf(c).Some?
    ensures CharOf(SymbolOf(c).value) == c
  {
  }

  function Spell(ss: seq<Symbol>): string {
    seq(|ss|, i requires 0 <= i < |ss| => CharOf(ss[i]))
  }

  lemma SpellCons(v: Symbol, rest: seq<Symbol>)
    ensures Spell([v] + rest) == [CharOf(v)] + Spell(rest)
  {
  }

  function Read(s: string): Option<seq<Symbol>> {
    if s == [] then Some([])
    else
      match (SymbolOf(s[0]), Read(s[1..]))
      case (Some(v), Some(rest)) => Some([v] + rest)
      case _ => None
  }

  /** The decoder tolerates padding, where RFC 4648 would have put it. */
  function Unpadded(s: string): (r: string)
    ensures r <= s
  {
    if s != [] && s[|s| - 1] == '=' && (|s| - 1) % 4 >= 2 then Unpadded(s[..|s| - 1]) else s
  }

  function EncodeBase64(bs: seq<Byte>): string {
    Spell(EncodeSymbols(bs))
  }

  function DecodeBase64(s: string): Option<seq<Byte>> {
    if |s| % 4 == 1 then None
    else
      match Read(Unpadded(s))
      case None => None
      case Some(ss) => DecodeSymbols(ss)
  }

  lemma {:induction false} ReadRejects(s: string, i: nat)
    requires i < |s| && SymbolOf(s[i]) == None
    ensures Read(s) == None
  {
    if i > 0 {
      ReadRejects(s[1..], i - 1);
    }
  }

  /** One more padding character makes no difference where padding belongs, and a misplaced one
      is rejected. */
  lemma PaddingIsTolerated(s: string)
    ensures |s| % 4 >= 2 ==> DecodeBase64(s + "=") == DecodeBase64(s)
    ensures |s| % 4 < 2 ==> DecodeBase64(s + "=") == None
  {
    var padded := s + "=";
    assert padded[..|padded| - 1] == s && padded[|s|] == '=';
    if |s| % 4 == 1 {
      ReadRejects(padded, |s|);
    }
  }

  lemma GroupRoundTrip(x: Byte, y: Byte, z: Byte)
    ensures First(x / 4, x % 4 * 16 + y / 16) == x
    ensures Second(x % 4 * 16 + y / 16, y % 16 * 4 + z / 64) == y
    ensures Third(y % 16 * 4 + z / 64, z % 64) == z
  {
  }

  lemma TailRoundTrip(x: Byte, y: Byte)
    ensures First(x / 4, x % 4 * 16) == x && x % 4 * 16 % 16 == 0
    ensures First(x / 4, x % 4 * 16 + y / 16) == x
    ensures Second(x % 4 * 16 + y / 16, y % 16 * 4) == y && y % 16 * 4 % 4 == 0
  {
  }

  lemma GroupSpelled(a: Symbol, b: Symbol, c: Symbol, d: Symbol, rest: seq<Byte>)
    ensures EncodeSymbols([First(a, b), Second(b, c), Third(c, d)] + rest) == [a, b, c, d] + EncodeSymbols(rest)
  {
    SymbolsOfGroup(a, b, c, d);
    assert ([First(a, b), Second(b, c), Third(c, d)] + rest)[3..] == rest;
  }

  lemma SymbolsOfGroup(a: Symbol, b: Symbol, c: Symbol, d: Symbol)
    ensures First(a, b) / 4 == a && First(a, b) % 4 * 16 + Second(b, c) / 16 == b
    ensures Second(b, c) % 16 * 4 + Third(c, d) / 64 == c && Third(c, d) % 64 == d
  {
  }

  /** The number with these digits, most significant first. */
  function Number(digits: seq<int>, base: nat): int {
    if digits == [] then 0 else Number(digits[..|digits| - 1], base) * base + digits[|digits| - 1]
  }

  lemma NumberOfThree(a: int, b: int, c: int, base: nat)
    ensures Number([a], base) == a && Number([a, b], base) == a * base + b
    ensures Number([a, b, c], base) == (a * base + b) * base + c
  {
    assert [a][..0] == [] && [a, b][..1] == [a] && [a, b, c][..2] == [a, b];
    assert Number([], base) * base == 0;
  }

  lemma NumberOfFour(a: int, b: int, c: int, d: int, base: nat)
    ensures Number([a, b, c, d], base) == ((a * base + b) * base + c) * base + d
  {
    NumberOfThree(a, b, c, base);
    assert [a, b, c, d][..3] == [a, b, c];
  }

  /** Symbols spell the bits of the bytes, most significant first, six at a time, and zeroes at
      the end; three bytes are spelled on their own. */
  lemma SymbolsSpellBits(x: Byte, y: Byte, z: Byte, rest: seq<Byte>)
    ensures
      var ss := EncodeSymbols([x, y, z] + rest);
      && |ss| >= 4 && ss[4..] == EncodeSymbols(rest)
      && Number([ss[0], ss[1], ss[2], ss[3]], 64) == Number([x, y, z], 256)
    ensures
      var ss := EncodeSymbols([x, y]);
      |ss| == 3 && Number([ss[0], ss[1], ss[2]], 64) == Number([x, y], 256) * 4
    ensures
      var ss := EncodeSymbols([x]);
      |ss| == 2 && Number([ss[0], ss[1]], 64) == Number([x], 256) * 16
  {
    assert ([x, y, z] + rest)[3..] == rest;
    var ss, two, one := EncodeSymbols([x, y, z] + rest), EncodeSymbols([x, y]), EncodeSymbols([x]);
    NumberOfFour(ss[0], ss[1], ss[2], ss[3], 64);
    NumberOfThree(x, y, z, 256);
    NumberOfThree(two[0], two[1], two[2], 64);
    NumberOfThree(one[0], one[1], 0, 64);
  }

  lemma {:induction false} DecodeEncodeSymbols(bs: seq<Byte>)
    ensures DecodeSymbols(EncodeSymbols(bs)) == Some(bs)
    ensures |EncodeSymbols(bs)| == (4 * |bs| + 2) / 3
  {
    var ss := EncodeSymbols(bs);
    if |bs| >= 3 {
      DecodeEncodeSymbols(bs[3..]);
      assert ss[4..] == EncodeSymbols(bs[3..]);
      GroupRoundTrip(bs[0], bs[1], bs[2]);
      assert bs == [First(ss[0], ss[1]), Second(ss[1], ss[2]), Third(ss[2], ss[3])] + bs[3..];
    } else if |bs| == 2 {
      TailRoundTrip(bs[0], bs[1]);
      assert bs == [First(ss[0], ss[1]), Second(ss[1], ss[2])];
    } else if |bs| == 1 {
      TailRoundTrip(bs[0], 0);
      assert bs == [First(ss[0], ss[1])];
    }
  }

  lemma TailSpelled(a: Symbol, b: Symbol, c: Symbol)
    ensures b % 16 == 0 ==> EncodeSymbols([First(a, b)]) == [a, b]
    ensures c % 4 == 0 ==> EncodeSymbols([First(a, b), Second(b, c)]) == [a, b, c]
  {
    SymbolsOfGroup(a, b, 0, 0);
    SymbolsOfGroup(a, b, c, 0);
  }

  lemma {:induction false} EncodeDecodeSymbols(ss: seq<Symbol>)
    requires DecodeSymbols(ss).Some?
    ensures EncodeSymbols(DecodeSymbols(ss).value) == ss
  {
    if |ss| == 2 {
      TailSpelled(ss[0], ss[1], 0);
    } else if |ss| == 3 {
      TailSpelled(ss[0], ss[1], ss[2]);
    } else if |ss| >= 4 {
      EncodeDecodeSymbols(ss[4..]);
      GroupSpelled(ss[0], ss[1], ss[2], ss[3], DecodeSymbols(ss[4..]).value);
      assert ss == [ss[0], ss[1], ss[2], ss[3]] + ss[4..];
    }
  }

  lemma {:induction false} DecodedLength(ss: seq<Symbol>)
    requires DecodeSymbols(ss).Some?
    ensures |DecodeSymbols(ss).value| == 3 * |ss| / 4
  {
    if |ss| >= 4 {
      DecodedLength(ss[4..]);
    }
  }

  lemma {:induction false} ReadSpell(ss: seq<Symbol>)
    ensures Read(Spell(ss)) == Some(ss)
  {
    if ss != [] {
      assert Spell(ss)[1..] == Spell(ss[1..]);
      ReadSpell(ss[1..]);
      CharsAreDistinct(ss[0]);
      assert ss == [ss[0]] + ss[1..];
    }
  }

  lemma {:induction false} SpellRead(s: string)
    requires Read(s).Some?
    ensures Spell(Read(s).value) == s
  {
    if s != [] {
      SpellRead(s[1..]);
      SymbolsAreDistinct(s[0]);
      SpellCons(SymbolOf(s[0]).value, Read(s[1..]).value);
      assert s == [s[0]] + s[1..];
    }
  }

  lemma DecodeEncodeBase64(bs: seq<Byte>)
    ensures DecodeBase64(EncodeBase64(bs)) == Some(bs)
    ensures |EncodeBase64(bs)| == (4 * |bs| + 2) / 3
    ensures Unpadded(EncodeBase64(bs)) == EncodeBase64(bs)
  {
    var ss := EncodeSymbols(bs);
    DecodeEncodeSymbols(bs);
    ReadSpell(ss);
    NoPaddingSpelled(ss);
    NeverLone(|bs|);
    assert |Spell(ss)| == |ss|;
  }

  lemma NeverLone(n: nat)
    ensures (4 * n + 2) / 3 % 4 != 1
  {
  }

  lemma NoPaddingSpelled(ss: seq<Symbol>)
    ensures '=' !in Spell(ss) && '?' !in Spell(ss)
    ensures Unpadded(Spell(ss)) == Spell(ss)
  {
    forall i | 0 <= i < |ss|
      ensures Spell(ss)[i] != '=' && Spell(ss)[i] != '?'
    {
      CharsAreDistinct(ss[i]);
    }
  }

  // ---- Ids ---------------------------------------------------------------------------

  function EncodeCallbackId(id: seq<Byte>): string {
    EncodeBase64(Strip(id))
  }

  const MAX_LEN := 11

  function Decoded(s: string): Option<nat> {
    if |s| > MAX_LEN then None
    else
      match DecodeBase64(s)
      case None => None
      case Some(bs) => Some(FromLe(bs))
  }

  /** `decode_config_slice`: decodes into the front of `buf` and leaves the rest alone. */
  method DecodeIntoSlice(s: string, buf: array<Byte>) returns (n: Option<nat>)
    requires |s| <= MAX_LEN && buf.Length == 9
    modifies buf
    ensures n.Some? <==> DecodeBase64(s).Some?
    ensures n.Some? ==> n.value <= 8 && buf[..] == DecodeBase64(s).value + old(buf[n.value..])
  {
    var d := DecodeBase64(s);
    if d == None {
      return None;
    }
    AtMostEightBytes(s);
    for i := 0 to |d.value|
      invariant buf[..i] == d.value[..i]
      invariant forall j :: i <= j < buf.Length ==> buf[j] == old(buf[j])
    {
      buf[i] := d.value[i];
    }
    n := Some(|d.value|);
  }

  method DecodeCallbackId(id: string) returns (r: Option<nat>)
    ensures r == Decoded(id)
  {
    if |id| > MAX_LEN {
      return None;
    }
    var buf := new Byte[9](_ => 0);
    var n := DecodeIntoSlice(id, buf);
    if n == None {
      return None;
    }
    if n.value > 8 {
      return None;
    }
    ghost var bs := DecodeBase64(id).value;
    assert buf[..8] == bs + Zeroes(8 - |bs|);
    FromLeIgnoresHighZeroes(bs, 8 - |bs|);
    r := Some(FromLe(buf[..8]));
  }

  lemma AtMostEightBytes(s: string)
    requires |s| <= MAX_LEN && DecodeBase64(s).Some?
    ensures |DecodeBase64(s).value| <= 8
  {
    var u := Unpadded(s);
    SpellRead(u);
    DecodedLength(Read(u).value);
  }

  lemma EightBytes()
    ensures Pow256(8) == U64_MAX + 1
  {
    assert Pow256(4) == 0x1_0000_0000;
  }

  lemma LeRoundTrip(id: nat, n: nat)
    requires id < Pow256(n)
    ensures FromLe(Strip(ToLe(id, n))) == id
  {
    StripKeepsValue(ToLe(id, n));
    FromToLe(id, n);
  }

  lemma StripKeepsValue(bs: seq<Byte>)
    ensures FromLe(Strip(bs)) == FromLe(bs)
  {
    FromLeIgnoresHighZeroes(Strip(bs), |bs| - |Strip(bs)|);
  }

  lemma IdRoundTrip(id: nat)
    requires id <= U64_MAX
    ensures Decoded(EncodeCallbackId(ToLe(id, 8))) == Some(id)
    ensures |EncodeCallbackId(ToLe(id, 8))| <= MAX_LEN == 11
  {
    EightBytes();
    LeRoundTrip(id, 8);
    DecodeEncodeBase64(Strip(ToLe(id, 8)));
  }

  ghost predicate Canonical(s: string)
    requires DecodeBase64(s).Some?
  {
    var bs := DecodeBase64(s).value;
    Unpadded(s) == s && (bs != [] ==> bs[|bs| - 1] != 0)
  }

  /** Re-encoding what a string decodes to gives the string back exactly when it carries no
      padding and no most significant zero byte. */
  lemma ReencodingIsCanonical(s: string)
    requires Decoded(s).Some?
    ensures Decoded(s).value <= U64_MAX
    ensures EncodeCallbackId(ToLe(Decoded(s).value, 8)) == s <==> Canonical(s)
  {
    var bs := DecodeBase64(s).value;
    LeOfDecoded(s, bs);
    DecodeEncodeBase64(Strip(bs));
    SpellRead(Unpadded(s));
    EncodeDecodeSymbols(Read(Unpadded(s)).value);
    if bs != [] && bs[|bs| - 1] == 0 {
      assert Strip(bs) != bs;
    } else {
      assert EncodeBase64(Strip(bs)) == Unpadded(s);
    }
  }

  lemma LeOfDecoded(s: string, bs: seq<Byte>)
    requires |s| <= MAX_LEN && DecodeBase64(s) == Some(bs)
    ensures FromLe(bs) <= U64_MAX && Strip(ToLe(FromLe(bs), 8)) == Strip(bs)
  {
    AtMostEightBytes(s);
    LeOfPadded(bs, 8 - |bs|);
    EightBytes();
  }

  lemma LeOfPadded(bs: seq<Byte>, n: nat)
    ensures FromLe(bs) < Pow256(|bs| + n)
    ensures Strip(ToLe(FromLe(bs), |bs| + n)) == Strip(bs)
  {
    var padded := bs + Zeroes(n);
    FromLeIgnoresHighZeroes(bs, n);
    ToFromLe(padded);
    FromLeIsBounded(padded);
    StripIgnoresHighZeroes(bs, n);
  }

  lemma {:induction false} FromLeIsBounded(bs: seq<Byte>)
    ensures FromLe(bs) < Pow256(|bs|)
  {
    if bs != [] {
      FromLeIsBounded(bs[1..]);
    }
  }

  lemma {:induction false} StripIgnoresHighZeroes(bs: seq<Byte>, n: nat)
    ensures Strip(bs + Zeroes(n)) == Strip(bs)
  {
    if n > 0 {
      assert (bs + Zeroes(n))[..|bs| + n - 1] == bs + Zeroes(n - 1);
      StripIgnoresHighZeroes(bs, n - 1);
    } else {
      assert bs + Zeroes(0) == bs;
    }
  }

  // ---- Routing -----------------------------------------------------------------------

  /** `pq` is the path and query of the configured URI, which is never empty. */
  function PrepareCallbackPrefix(pq: string): (r: string)
    requires pq != []
    ensures pq <= r && r[|r| - 1] == '/' && |r| <= |pq| + 1
    ensures pq[|pq| - 1] == '/' ==> r == pq
  {
    if pq[|pq| - 1] == '/' then pq else pq + "/"
  }

  /** The bits of an `i64`, read as a `u64`. */
  function Bits(id: int): (u: nat)
    ensures u <= U64_MAX
    ensures -I64_MAX - 1 <= id <= I64_MAX ==> u == if id < 0 then id + U64_MAX + 1 else id
  {
    id % (U64_MAX + 1)
  }

  function I64ToLe(id: int): seq<Byte> {
    ToLe(Bits(id), 8)
  }

  function MakeCallback(prefix: string, id: int): string {
    prefix + EncodeCallbackId(I64ToLe(id))
  }

  /** `Uri::path`: what comes before the query. */
  function PathOf(pq: string): (r: string)
    ensures r <= pq && '?' !in r
    ensures '?' !in pq ==> r == pq
    ensures '?' in pq ==> |r| < |pq| && pq[|r|] == '?'
  {
    if pq == [] || pq[0] == '?' then [] else [pq[0]] + PathOf(pq[1..])
  }

  datatype Route = Id(id: int) | BadRequest | NotFound

  /** How `call` resolves the path of a request to a subscription id. */
  method Resolve(callback: string, path: string) returns (r: Route)
    ensures r == Resolved(callback, path)
    ensures r == NotFound <==> !(PathOf(callback) <= path)
    ensures r.Id? <==>
      && PathOf(callback) <= path
      && Decoded(path[|PathOf(callback)|..]).Some? && Decoded(path[|PathOf(callback)|..]).value <= I64_MAX
    ensures r.Id? ==> Decoded(path[|PathOf(callback)|..]) == Some(r.id)
  {
    if PathOf(callback) <= path {
      var id := DecodeCallbackId(path[|PathOf(callback)|..]);
      if id == None {
        return BadRequest;
      }
      if id.value > I64_MAX {
        return BadRequest;
      }
      return Id(id.value);
    } else {
      return NotFound;
    }
  }

  function Resolved(callback: string, path: string): Route {
    if PathOf(callback) <= path then
      match Decoded(path[|PathOf(callback)|..])
      case None => BadRequest
      case Some(id) => if id > I64_MAX then BadRequest else Id(id)
    else NotFound
  }

  /** Every callback the program hands out leads back to its subscription, whatever query a
      hub appends to it, exactly when the id is not negative, as no id it draws is, and the
      configured URI has no query part, which deserialization of the manifest ensures. */
  lemma CallbackLeadsBack(pq: string, id: int, query: string)
    requires pq != [] && -I64_MAX - 1 <= id <= I64_MAX
    ensures
      var callback := MakeCallback(PrepareCallbackPrefix(pq), id);
      Resolved(PrepareCallbackPrefix(pq), PathOf(callback + "?" + query)) == Id(id)
      <==> id == 0 || (0 < id && '?' !in pq)
    ensures
      var callback := MakeCallback(PrepareCallbackPrefix(pq), id);
      PathOf(callback + "?" + query) == PathOf(callback)
  {
    var prefix := PrepareCallbackPrefix(pq);
    CallbackSuffix(id);
    AppendedResolves(prefix, EncodeCallbackId(I64ToLe(id)), Bits(id));
    assert '?' in prefix <==> '?' in pq;
    PathOfQueried(MakeCallback(prefix, id), query);
  }

  /** The same for a prefix that is prepared already: the request of a hub for a callback,
      with its query, reaches the subscription that the callback was made for. */
  lemma RequestReaches(prefix: string, id: int, query: string)
    requires '?' !in prefix && 0 <= id <= I64_MAX
    ensures Resolved(prefix, PathOf(MakeCallback(prefix, id) + "?" + query)) == Id(id)
  {
    CallbackSuffix(id);
    AppendedResolves(prefix, EncodeCallbackId(I64ToLe(id)), Bits(id));
    PathOfQueried(MakeCallback(prefix, id), query);
  }

  lemma {:induction false} PathOfQueried(pq: string, query: string)
    ensures PathOf(pq + "?" + query) == PathOf(pq)
  {
    if pq != [] && pq[0] != '?' {
      assert (pq + "?" + query)[1..] == pq[1..] + "?" + query;
      PathOfQueried(pq[1..], query);
    }
  }

  lemma AppendedResolves(prefix: string, suffix: string, u: nat)
    requires '?' !in suffix && Decoded(suffix) == Some(u)
    ensures Resolved(prefix, PathOf(prefix + suffix)) ==
      if '?' in prefix then Id(0) else if u > I64_MAX then BadRequest else Id(u)
  {
    PathOfAppend(prefix, suffix);
    if '?' in prefix {
      EmptySuffix(prefix);
    } else {
      assert (prefix + suffix)[|prefix|..] == suffix;
    }
  }

  lemma CallbackSuffix(id: int)
    ensures '?' !in EncodeCallbackId(I64ToLe(id))
    ensures Decoded(EncodeCallbackId(I64ToLe(id))) == Some(Bits(id))
  {
    IdRoundTrip(Bits(id));
    NoPaddingSpelled(EncodeSymbols(Strip(I64ToLe(id))));
  }

  lemma EmptySuffix(callback: string)
    ensures Resolved(callback, PathOf(callback)) == Id(0)
  {
    var path := PathOf(callback);
    assert path[|path|..] == "";
    assert Decoded("") == Some(0);
  }

  lemma {:induction false} PathOfAppend(pq: string, s: string)
    requires '?' !in s
    ensures PathOf(pq + s) == if '?' in pq then PathOf(pq) else pq + s
  {
    if pq != [] && pq[0] != '?' {
      assert (pq + s)[1..] == pq[1..] + s;
      PathOfAppend(pq[1..], s);
      assert '?' in pq <==> '?' in pq[1..];
    } else if pq == [] {
      assert pq + s == s;
    }
  }
}
