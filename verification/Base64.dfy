/** Base64 (RFC 4648, section 4) as base64.h encodes and decodes it, without newlines. */
module Base64 {
  import opened Octets

  /** A group of six bits. */
  type Sextet = v: int | 0 <= v < 64

  const PAD: Byte := 61

  // ---------- the alphabet: A-Z, a-z, 0-9, +, / ----------

  /** `charset[v]`. */
  function Char(v: Sextet): Byte {
    if v < 26 then 65 + v
    else if v < 52 then 97 + (v - 26)
    else if v < 62 then 48 + (v - 52)
    else if v == 62 then 43
    else 47
  }

  /** `revchar`; a character outside the alphabet is returned as it is. */
  function RevChar(c: Byte): Byte {
    if 65 <= c <= 90 then c - 65
    else if 97 <= c <= 122 then c - 97 + 26
    else if 48 <= c <= 57 then c - 48 + 52
    else if c == 43 then 62
    else if c == 47 then 63
    else c
  }

  lemma RevCharChar(v: Sextet)
    ensures RevChar(Char(v)) == v && Char(v) != 61
  {}

  /** The alphabet of the standard. */
  const ALPHABET: string := ("ABCDEFGHIJKLMNOPQRSTUVWXYZ" + "abcdefghijklmnopqrstuvwxyz") + ("0123456789" + "+/")

  /** A sextet becomes the letter at its index, and back. */
  lemma CharIs(v: Sextet)
    ensures |ALPHABET| == 64 && Char(v) == ALPHABET[v] as int && RevChar(ALPHABET[v] as int) == v
  {
    if v < 26 { UpperCase(v); }
    else if v < 52 { LowerCase(v - 26); }
    else if v < 62 { Digit(v - 52); }
  }

  lemma UpperCase(i: nat)
    requires i < 26
    ensures "ABCDEFGHIJKLMNOPQRSTUVWXYZ"[i] as int == 65 + i
  {}

  lemma LowerCase(i: nat)
    requires i < 26
    ensures "abcdefghijklmnopqrstuvwxyz"[i] as int == 97 + i
  {}

  lemma Digit(i: nat)
    requires i < 10
    ensures "0123456789"[i] as int == 48 + i
  {}

  /** A character that is no letter is returned as it is. */
  lemma RevCharIs(c: Byte)
    ensures c as char !in ALPHABET ==> RevChar(c) == c
    ensures c as char in ALPHABET ==> RevChar(c) < 64 && |ALPHABET| == 64 && ALPHABET[RevChar(c)] == c as char
  {
    if RevChar(c) != c || c == 43 || c == 47 {
      CharIs(RevChar(c));
    }
    if c as char in ALPHABET {
      var v :| 0 <= v < |ALPHABET| && ALPHABET[v] == c as char;
      CharIs(v);
    }
  }

  // ---------- the standard: bits of a 24-bit group, most significant first ----------

  /** The k-th six-bit group of the 24 bits formed by three bytes. */
  function SextetOf(a: Byte, b: Byte, c: Byte, k: nat): Sextet
    requires k < 4
  {
    var n := 65536 * a + 256 * b + c;
    if k == 0 then n / 262144
    else if k == 1 then n / 4096 % 64
    else if k == 2 then n / 64 % 64
    else n % 64
  }

  /** The four characters of three bytes. */
  function Group(a: Byte, b: Byte, c: Byte): (r: seq<Byte>)
    ensures |r| == 4
  {
    [Char(SextetOf(a, b, c, 0)), Char(SextetOf(a, b, c, 1)), Char(SextetOf(a, b, c, 2)), Char(SextetOf(a, b, c, 3))]
  }

  /** The encoding without padding: full groups, then a shorter one completed with zero bits. */
  function Body(s: seq<Byte>): seq<Byte> {
    if |s| >= 3 then Group(s[0], s[1], s[2]) + Body(s[3..])
    else if |s| == 2 then Group(s[0], s[1], 0)[..3]
    else if |s| == 1 then Group(s[0], 0, 0)[..2]
    else []
  }

  function Padding(n: nat): seq<Byte> {
    if n % 3 == 1 then [PAD, PAD] else if n % 3 == 2 then [PAD] else []
  }

  function Encoded(s: seq<Byte>): seq<Byte> {
    Body(s) + Padding(|s|)
  }

  /** An encoding has four characters for every three bytes begun. */
  lemma {:induction false} EncodedLength(s: seq<Byte>)
    ensures |Encoded(s)| == (|s| + 2) / 3 * 4
    ensures |s| > 0 ==> |Body(s)| >= 2
  {
    hide Body;
    BodyLength(s);
  }

  lemma {:induction false} BodyLength(s: seq<Byte>)
    ensures |Body(s)| == 4 * (|s| / 3) + (if |s| % 3 == 0 then 0 else |s| % 3 + 1)
    decreases |s|
  {
    hide Group;
    if |s| >= 3 {
      assert |s| / 3 == (|s| - 3) / 3 + 1;
      BodyLength(s[3..]);
    }
  }

  /** Byte i, zero behind the end. */
  function At(s: seq<Byte>, i: nat): Byte { if i < |s| then s[i] else 0 }

  /** Four characters are the letters of 24 bits, the ones behind `bytes` bytes replaced by '='. */
  ghost predicate IsGroup(e: seq<Byte>, at: nat, n: nat, bytes: int) {
    && at + 4 <= |e| && n < 16777216 && |ALPHABET| == 64
    && e[at] as char == ALPHABET[n / 262144] && e[at + 1] as char == ALPHABET[n / 4096 % 64]
    && e[at + 2] as char == (if bytes >= 2 then ALPHABET[n / 64 % 64] else '=')
    && e[at + 3] as char == (if bytes >= 3 then ALPHABET[n % 64] else '=')
  }

  /** Every group of the encoding is the standard's: its three bytes, completed with zeros, as one number of 24 bits. */
  lemma {:induction false} EncodedAt(s: seq<Byte>, g: nat)
    requires 3 * g < |s|
    ensures IsGroup(Encoded(s), 4 * g, 65536 * At(s, 3 * g) + 256 * At(s, 3 * g + 1) + At(s, 3 * g + 2), |s| - 3 * g)
    decreases g
  {
    hide At, Encoded, Group, IsGroup;
    var n := 65536 * At(s, 3 * g) + 256 * At(s, 3 * g + 1) + At(s, 3 * g + 2);
    if g == 0 {
      FirstGroup(s);
    } else {
      EncodedAt(s[3..], g - 1);
      assert 3 * (g - 1) == 3 * g - 3 && 4 * (g - 1) == 4 * g - 4;
      AtLater(s, 3 * g);
      AtLater(s, 3 * g + 1);
      AtLater(s, 3 * g + 2);
      EncodedRest(s);
      GroupLater(Group(s[0], s[1], s[2]), Encoded(s[3..]), 4 * g - 4, n, |s| - 3 * g);
    }
  }

  lemma AtLater(s: seq<Byte>, i: nat)
    requires |s| >= 3 && i >= 3
    ensures At(s[3..], i - 3) == At(s, i)
  {}

  lemma GroupLater(front: seq<Byte>, e: seq<Byte>, at: nat, n: nat, bytes: int)
    requires |front| == 4 && IsGroup(e, at, n, bytes)
    ensures IsGroup(front + e, at + 4, n, bytes)
  {}

  lemma EncodedRest(s: seq<Byte>)
    requires |s| >= 3
    ensures Encoded(s) == Group(s[0], s[1], s[2]) + Encoded(s[3..])
  {
    hide Group;
    assert |s| % 3 == (|s| - 3) % 3;
    Associate(Group(s[0], s[1], s[2]), Body(s[3..]), Padding(|s|));
  }

  lemma FirstGroup(s: seq<Byte>)
    requires s != []
    ensures IsGroup(Encoded(s), 0, 65536 * At(s, 0) + 256 * At(s, 1) + At(s, 2), |s|)
  {
    hide Char, IsGroup;
    var n := 65536 * At(s, 0) + 256 * At(s, 1) + At(s, 2);
    Letters(At(s, 0), At(s, 1), At(s, 2));
    if |s| >= 3 { EncodedRest(s); }
    var e, g := Encoded(s), Group(At(s, 0), At(s, 1), At(s, 2));
    assert |e| >= 4 && e[0] == g[0] && e[1] == g[1];
    assert e[2] == (if |s| >= 2 then g[2] else 61) && e[3] == (if |s| >= 3 then g[3] else 61);
    GroupOf(e, g, n, |s|);
  }

  lemma GroupOf(e: seq<Byte>, g: seq<Byte>, n: nat, bytes: nat)
    requires |g| == 4 && IsGroup(g, 0, n, 3) && |e| >= 4 && e[0] == g[0] && e[1] == g[1]
    requires e[2] == (if bytes >= 2 then g[2] else 61) && e[3] == (if bytes >= 3 then g[3] else 61)
    ensures IsGroup(e, 0, n, bytes)
  {}

  lemma Letters(a: Byte, b: Byte, c: Byte)
    ensures IsGroup(Group(a, b, c), 0, 65536 * a + 256 * b + c, 3)
  {
    hide Char;
    CharIs(SextetOf(a, b, c, 0));
    CharIs(SextetOf(a, b, c, 1));
    CharIs(SextetOf(a, b, c, 2));
    CharIs(SextetOf(a, b, c, 3));
  }

  /** An encoding of n bytes ends in exactly (3 - n % 3) % 3 characters '=' (61). */
  lemma {:induction false} PadsAreExact(s: seq<Byte>)
    ensures var e, p := Encoded(s), (3 - |s| % 3) % 3;
            p <= |e| && forall i | 0 <= i < |e| :: e[i] == 61 <==> i >= |e| - p
  {
    hide Body;
    BodyUnpadded(s);
  }

  /** The test vectors of section 10 of RFC 4648 for "f", "fo" and "foo", and one byte 77. */
  lemma Vectors()
    ensures Encoded([102]) == [90, 103, 61, 61]
    ensures Encoded([102, 111]) == [90, 109, 56, 61]
    ensures Encoded([102, 111, 111]) == [90, 109, 57, 118]
    ensures Encoded([77]) == [84, 81, 61, 61]
  {
    hide Encoded, Group;
    ShortEncodings(102, 111, 111);
    ShortEncodings(77, 0, 0);
    assert Group(102, 0, 0) == [90, 103, 65, 65] && Group(77, 0, 0) == [84, 81, 65, 65] by { OneByteGroups(); }
    assert Group(102, 111, 0) == [90, 109, 56, 65] && Group(102, 111, 111) == [90, 109, 57, 118] by { MoreByteGroups(); }
  }

  lemma OneByteGroups()
    ensures Group(102, 0, 0) == [90, 103, 65, 65] && Group(77, 0, 0) == [84, 81, 65, 65]
  {
    hide SextetOf, Group;
    ShiftsAreGroup(102, 0, 0);
    ShiftsAreGroup(77, 0, 0);
  }

  lemma MoreByteGroups()
    ensures Group(102, 111, 0) == [90, 109, 56, 65] && Group(102, 111, 111) == [90, 109, 57, 118]
  {
    hide SextetOf, Group;
    ShiftsAreGroup(102, 111, 0);
    ShiftsAreGroup(102, 111, 111);
  }

  lemma ShortEncodings(a: Byte, b: Byte, c: Byte)
    ensures Encoded([a]) == Group(a, 0, 0)[..2] + [61, 61]
    ensures Encoded([a, b]) == Group(a, b, 0)[..3] + [61]
    ensures Encoded([a, b, c]) == Group(a, b, c)
  {
    hide Group;
    assert [a, b, c][3..] == [] && Body([]) == [];
    assert Group(a, b, c) + [] + [] == Group(a, b, c);
  }

  lemma Associate(a: seq<Byte>, b: seq<Byte>, c: seq<Byte>)
    ensures (a + b) + c == a + (b + c)
  {}

  // ---------- base64_encode ----------

  // C's shifts and masks on unsigned bytes: x >> k is x / 2^k, x & (2^k - 1) is x % 2^k, x << k is x * 2^k.

  lemma Quotient64(q: int, r: int)
    requires 0 <= r < 64
    ensures (64 * q + r) / 64 == q && (64 * q + r) % 64 == r
  {}

  lemma Quotient4096(q: int, r: int)
    requires 0 <= r < 4096
    ensures (4096 * q + r) / 4096 == q
  {}

  lemma FirstSextet(a: Byte, b: Byte, c: Byte)
    ensures a / 4 == SextetOf(a, b, c, 0)
  {
    assert 65536 * a + 256 * b + c == 262144 * (a / 4) + (65536 * (a % 4) + 256 * b + c);
  }

  lemma SecondSextet(a: Byte, b: Byte, c: Byte)
    ensures a % 4 * 16 + b / 16 == SextetOf(a, b, c, 1)
  {
    Quotient4096(16 * a + b / 16, 256 * (b % 16) + c);
    Quotient64(a / 4, a % 4 * 16 + b / 16);
  }

  lemma ThirdSextet(a: Byte, b: Byte, c: Byte)
    ensures b % 16 * 4 + c / 64 == SextetOf(a, b, c, 2)
  {
    Quotient64(1024 * a + 4 * b + c / 64, c % 64);
    Quotient64(16 * a + b / 16, b % 16 * 4 + c / 64);
  }

  lemma FourthSextet(a: Byte, b: Byte, c: Byte)
    ensures c % 64 == SextetOf(a, b, c, 3)
  {
    Quotient64(1024 * a + 4 * b + c / 64, c % 64);
  }

  /** The shifts of the encoder pick out the standard's six-bit groups. */
  lemma {:induction false} ShiftsAreGroup(a: Byte, b: Byte, c: Byte)
    ensures Group(a, b, c) == [Char(a / 4), Char(a % 4 * 16 + b / 16), Char(b % 16 * 4 + c / 64), Char(c % 64)]
  {
    hide SextetOf, Char;
    FirstSextet(a, b, c);
    SecondSextet(a, b, c);
    ThirdSextet(a, b, c);
    FourthSextet(a, b, c);
  }

  method Encode(input: array<Byte>, out: array<Byte>, len: nat) returns (n: nat)
    requires input != out && len <= input.Length && (len + 2) / 3 * 4 < out.Length
    modifies out
    ensures n == (len + 2) / 3 * 4 && out[..n] == Encoded(input[..len]) && out[n] == 0
    ensures forall i | 0 <= i < n :: out[i] == 61 <==> i >= n - (3 - len % 3) % 3
  {
    hide Char, Group, Body;
    EncodedLength(input[..len]);
    ghost var s := input[..len];
    var idx;
    idx, n := EncodeBlocks(input, out, len);
    EncodeRest(input, idx, out, n, len);
    BodyTail(s, idx);
    assert s[idx..] == input[idx..len];
    PadsAreExact(s);
    if len % 3 != 0 { n := n + 4; }
    out[n] := 0;
  }

  /** The loop of `base64_encode` over the full groups. */
  method EncodeBlocks(input: array<Byte>, out: array<Byte>, len: nat) returns (idx: nat, n: nat)
    requires input != out && len <= input.Length && len / 3 * 4 <= out.Length
    modifies out
    ensures idx == len / 3 * 3 && n == len / 3 * 4 && out[..n] + Body(input[idx..len]) == Body(input[..len])
  {
    hide Char, Group, Body;
    ghost var s := input[..len];
    ghost var groups := len / 3;
    var blks := len / 3 * 3;
    idx, n := 0, 0;
    ghost var i := 0;
    assert out[..0] + Body(s[0..]) == Body(s) by { assert s[0..] == s; }
    while idx < blks
      invariant idx == 3 * i <= 3 * groups && n == 4 * i
      invariant out[..n] + Body(s[idx..]) == Body(s)
    {
      BodyStep(s, idx);
      Associate(out[..n], Group(s[idx], s[idx + 1], s[idx + 2]), Body(s[idx + 3..]));
      EncodeBlock(input, idx, out, n);
      idx := idx + 3;
      n := n + 4;
      i := i + 1;
    }
    assert s[idx..] == input[idx..len];
  }

  /** The loop body of `base64_encode`: three bytes to four characters. */
  method EncodeBlock(input: array<Byte>, idx: nat, out: array<Byte>, n: nat)
    requires input != out && idx + 3 <= input.Length && n + 4 <= out.Length
    modifies out
    ensures out[..n + 4] == old(out[..n]) + Group(input[idx], input[idx + 1], input[idx + 2])
  {
    hide Char, Group;
    ShiftsAreGroup(input[idx], input[idx + 1], input[idx + 2]);
    out[n] := Char(input[idx] / 4);
    out[n + 1] := Char(input[idx] % 4 * 16 + input[idx + 1] / 16);
    out[n + 2] := Char(input[idx + 1] % 16 * 4 + input[idx + 2] / 64);
    out[n + 3] := Char(input[idx + 2] % 64);
  }

  /** What `base64_encode` does with the one or two bytes left over. */
  method EncodeRest(input: array<Byte>, idx: nat, out: array<Byte>, n: nat, len: nat)
    requires input != out && idx == len / 3 * 3 && len <= input.Length && n + 4 <= out.Length + (if len % 3 == 0 then 4 else 0)
    modifies out
    ensures len % 3 == 0 ==> out[..] == old(out[..])
    ensures len % 3 == 1 ==> out[..n + 4] == old(out[..n]) + (Group(input[idx], 0, 0)[..2] + [PAD, PAD])
    ensures len % 3 == 2 ==> out[..n + 4] == old(out[..n]) + (Group(input[idx], input[idx + 1], 0)[..3] + [PAD])
  {
    hide Char, Group;
    if len % 3 == 1 {
      ShiftsAreGroup(input[idx], 0, 0);
      out[n] := Char(input[idx] / 4);
      out[n + 1] := Char(input[idx] % 4 * 16);
      out[n + 2] := PAD;
      out[n + 3] := PAD;
    } else if len % 3 == 2 {
      ShiftsAreGroup(input[idx], input[idx + 1], 0);
      out[n] := Char(input[idx] / 4);
      out[n + 1] := Char(input[idx] % 4 * 16 + input[idx + 1] / 16);
      out[n + 2] := Char(input[idx + 1] % 16 * 4);
      out[n + 3] := PAD;
    }
  }

  lemma BodyStep(s: seq<Byte>, i: nat)
    requires i + 3 <= |s|
    ensures Body(s[i..]) == Group(s[i], s[i + 1], s[i + 2]) + Body(s[i + 3..])
  {
    hide Group;
    assert s[i..][3..] == s[i + 3..];
  }

  lemma BodyTail(s: seq<Byte>, i: nat)
    requires i == |s| / 3 * 3
    ensures |s| % 3 == 0 ==> Body(s[i..]) == []
    ensures |s| % 3 == 1 ==> Body(s[i..]) == Group(s[i], 0, 0)[..2]
    ensures |s| % 3 == 2 ==> Body(s[i..]) == Group(s[i], s[i + 1], 0)[..3]
  {
    hide Group;
  }

  // ---------- base64_decode ----------

  /** The bytes the decoder makes of four, three or two characters, each cut to eight bits. */
  function Byte0(p: Byte, q: Byte): Byte { (RevChar(p) * 4 + RevChar(q) / 16 % 4) % 256 }

  function Byte1(q: Byte, r: Byte): Byte { (RevChar(q) * 16 + RevChar(r) / 4) % 256 }

  function Byte2(r: Byte, t: Byte): Byte { (RevChar(r) * 64 + RevChar(t)) % 256 }

  function Decoded(s: seq<Byte>): seq<Byte> {
    if |s| >= 4 then [Byte0(s[0], s[1]), Byte1(s[1], s[2]), Byte2(s[2], s[3])] + Decoded(s[4..])
    else if |s| == 3 then [Byte0(s[0], s[1]), Byte1(s[1], s[2]), RevChar(s[2]) * 64 % 256]
    else if |s| == 2 then [Byte0(s[0], s[1]), RevChar(s[1]) * 16 % 256]
    else []
  }

  /** Drops at most two padding characters. */
  function Stripped(s: seq<Byte>): seq<Byte>
    requires |s| > 0 && (s[|s| - 1] == 61 ==> |s| > 1)
  {
    if s[|s| - 1] != PAD then s
    else if s[|s| - 2] != PAD then s[..|s| - 1]
    else s[..|s| - 2]
  }

  method Decode(input: array<Byte>, out: array<Byte>, len: nat) returns (n: nat)
    requires input != out && 0 < len <= input.Length && (input[len - 1] == 61 ==> len > 1)
    requires |Decoded(Stripped(input[..len]))| < out.Length
    modifies out
    ensures n == |Decoded(Stripped(input[..len]))| && out[..n] == Decoded(Stripped(input[..len])) && out[n] == 0
  {
    hide RevChar, Decoded;
    var m := len;
    if input[m - 1] == PAD { m := m - 1; }
    if m < len && input[m - 1] == PAD { m := m - 1; }
    assert input[..m] == Stripped(input[..len]);
    n := DecodeGroups(input, out, m);
  }

  /** The rest of `base64_decode`, once padding is dropped from the length. */
  method DecodeGroups(input: array<Byte>, out: array<Byte>, m: nat) returns (n: nat)
    requires input != out && m <= input.Length && |Decoded(input[..m])| < out.Length
    modifies out
    ensures n == |Decoded(input[..m])| && out[..n] == Decoded(input[..m]) && out[n] == 0
  {
    hide RevChar, Decoded, Byte0, Byte1, Byte2;
    ghost var s := input[..m];
    assert out[..0] + Decoded(s[0..]) == Decoded(s) by { assert s[0..] == s; }
    var blks := m / 4 * 4;
    var idx2 := 0;
    n := 0;
    ghost var i := 0;
    while idx2 < blks
      invariant idx2 == 4 * i <= blks && n + |Decoded(s[idx2..])| == |Decoded(s)|
      invariant out[..n] + Decoded(s[idx2..]) == Decoded(s)
    {
      DecodedStep(s, idx2);
      Associate(out[..n], [Byte0(s[idx2], s[idx2 + 1]), Byte1(s[idx2 + 1], s[idx2 + 2]), Byte2(s[idx2 + 2], s[idx2 + 3])],
                Decoded(s[idx2 + 4..]));
      DecodeBlock(input, idx2, out, n);
      n := n + 3;
      idx2 := idx2 + 4;
      i := i + 1;
    }
    DecodedTail(s, idx2);
    DecodeRest(input, idx2, out, n, m);
    if m % 4 >= 2 { n := n + m % 4; }
    out[n] := 0;
  }

  /** The loop body of `base64_decode`: four characters to three bytes. */
  method DecodeBlock(input: array<Byte>, idx2: nat, out: array<Byte>, n: nat)
    requires input != out && idx2 + 4 <= input.Length && n + 3 <= out.Length
    modifies out
    ensures out[..n + 3] == old(out[..n]) + [Byte0(input[idx2], input[idx2 + 1]), Byte1(input[idx2 + 1], input[idx2 + 2]),
                                             Byte2(input[idx2 + 2], input[idx2 + 3])]
  {
    hide RevChar;
    out[n] := (RevChar(input[idx2]) * 4 + RevChar(input[idx2 + 1]) / 16 % 4) % 256;
    out[n + 1] := (RevChar(input[idx2 + 1]) * 16 + RevChar(input[idx2 + 2]) / 4) % 256;
    out[n + 2] := (RevChar(input[idx2 + 2]) * 64 + RevChar(input[idx2 + 3])) % 256;
  }

  /** What `base64_decode` does with the two or three characters left over; a single one is ignored. */
  method DecodeRest(input: array<Byte>, idx2: nat, out: array<Byte>, n: nat, m: nat)
    requires input != out && idx2 == m / 4 * 4 && m <= input.Length && n + (if m % 4 >= 2 then m % 4 else 0) <= out.Length
    modifies out
    ensures m % 4 < 2 ==> out[..] == old(out[..])
    ensures m % 4 == 2 ==> out[..n + 2] == old(out[..n]) + [Byte0(input[idx2], input[idx2 + 1]), RevChar(input[idx2 + 1]) * 16 % 256]
    ensures m % 4 == 3 ==> out[..n + 3] == old(out[..n]) + [Byte0(input[idx2], input[idx2 + 1]), Byte1(input[idx2 + 1], input[idx2 + 2]),
                                                            RevChar(input[idx2 + 2]) * 64 % 256]
  {
    hide RevChar;
    if m % 4 == 2 {
      out[n] := (RevChar(input[idx2]) * 4 + RevChar(input[idx2 + 1]) / 16 % 4) % 256;
      out[n + 1] := RevChar(input[idx2 + 1]) * 16 % 256;
    } else if m % 4 == 3 {
      out[n] := (RevChar(input[idx2]) * 4 + RevChar(input[idx2 + 1]) / 16 % 4) % 256;
      out[n + 1] := (RevChar(input[idx2 + 1]) * 16 + RevChar(input[idx2 + 2]) / 4) % 256;
      out[n + 2] := RevChar(input[idx2 + 2]) * 64 % 256;
    }
  }

  /** Characters that are no letters are decoded as well. */
  lemma ForeignCharacters()
    ensures Decoded([250, 250, 250, 250]) == [235, 222, 122]
    ensures Decoded([250, 250, 250]) == [235, 222, 128]
    ensures Decoded([250, 250]) == [235, 160]
    ensures Decoded([250]) == []
  {
    assert Decoded([250, 250, 250, 250][4..]) == [];
  }

  lemma DecodedStep(s: seq<Byte>, i: nat)
    requires i + 4 <= |s|
    ensures Decoded(s[i..]) == [Byte0(s[i], s[i + 1]), Byte1(s[i + 1], s[i + 2]), Byte2(s[i + 2], s[i + 3])] + Decoded(s[i + 4..])
  {
    hide Byte0, Byte1, Byte2;
    assert s[i..][4..] == s[i + 4..];
  }

  lemma DecodedTail(s: seq<Byte>, i: nat)
    requires i == |s| / 4 * 4
    ensures |s| % 4 < 2 ==> Decoded(s[i..]) == []
    ensures |s| % 4 == 2 ==> Decoded(s[i..]) == [Byte0(s[i], s[i + 1]), RevChar(s[i + 1]) * 16 % 256]
    ensures |s| % 4 == 3 ==> Decoded(s[i..]) == [Byte0(s[i], s[i + 1]), Byte1(s[i + 1], s[i + 2]), RevChar(s[i + 2]) * 64 % 256]
  {
    hide Byte0, Byte1, RevChar;
  }

  // ---------- the round trip ----------

  // The decoder's shifts put the bits back; `p` to `t` are the sextets the encoder's shifts make.

  lemma FirstByte(a: Byte, b: Byte)
    ensures (a / 4 * 4 + (a % 4 * 16 + b / 16) / 16 % 4) % 256 == a
  {
    assert (a % 4 * 16 + b / 16) / 16 == a % 4;
  }

  lemma SecondByte(a: Byte, b: Byte, c: Byte)
    ensures ((a % 4 * 16 + b / 16) * 16 + (b % 16 * 4 + c / 64) / 4) % 256 == b
  {
    assert (b % 16 * 4 + c / 64) / 4 == b % 16;
    assert (a % 4 * 16 + b / 16) * 16 + b % 16 == 256 * (a % 4) + b;
  }

  lemma ThirdByte(b: Byte, c: Byte)
    ensures ((b % 16 * 4 + c / 64) * 64 + c % 64) % 256 == c
  {
    assert (b % 16 * 4 + c / 64) * 64 + c % 64 == 256 * (b % 16) + c;
  }

  /** Four characters carry three bytes. */
  lemma GroupBack(a: Byte, b: Byte, c: Byte)
    ensures var g := Group(a, b, c); Byte0(g[0], g[1]) == a && Byte1(g[1], g[2]) == b && Byte2(g[2], g[3]) == c
  {
    hide Char, RevChar, Group;
    ShiftsAreGroup(a, b, c);
    RevCharChar(a / 4);
    RevCharChar(a % 4 * 16 + b / 16);
    RevCharChar(b % 16 * 4 + c / 64);
    RevCharChar(c % 64);
    FirstByte(a, b);
    SecondByte(a, b, c);
    ThirdByte(b, c);
  }

  /** The last character of a shorter group leaves a zero byte. */
  lemma TailBack(a: Byte, b: Byte)
    ensures RevChar(Group(a, 0, 0)[1]) * 16 % 256 == 0 && RevChar(Group(a, b, 0)[2]) * 64 % 256 == 0
  {
    hide Char, RevChar, Group;
    ShiftsAreGroup(a, 0, 0);
    ShiftsAreGroup(a, b, 0);
    RevCharChar(a % 4 * 16);
    RevCharChar(b % 16 * 4);
  }

  /** Decoding the unpadded body gives the bytes back, followed by one zero byte unless they came in threes. */
  lemma {:induction false} BodyBack(s: seq<Byte>)
    ensures Decoded(Body(s)) == s + (if |s| % 3 == 0 then [] else [0])
    decreases |s|
  {
    hide RevChar, Group, Byte0, Byte1, Byte2;
    if |s| >= 3 {
      GroupBack(s[0], s[1], s[2]);
      assert Body(s)[4..] == Body(s[3..]);
      BodyBack(s[3..]);
    } else if |s| == 2 {
      GroupBack(s[0], s[1], 0);
      TailBack(s[0], s[1]);
    } else if |s| == 1 {
      GroupBack(s[0], 0, 0);
      TailBack(s[0], 0);
    }
  }

  lemma {:induction false} BodyUnpadded(s: seq<Byte>)
    ensures forall i | 0 <= i < |Body(s)| :: Body(s)[i] != 61
    decreases |s|
  {
    hide SextetOf;
    if |s| >= 3 { BodyUnpadded(s[3..]); }
  }

  /** Decoding an encoding gives the bytes back; the returned length is their number exactly when it is a multiple
      of three, and one more, for a zero byte, otherwise. */
  lemma RoundTrip(s: seq<Byte>)
    requires |s| > 0
    ensures var e := Encoded(s);
            (e[|e| - 1] == 61 ==> |e| > 1)
            && Decoded(Stripped(e)) == s + (if |s| % 3 == 0 then [] else [0])
            && (|Decoded(Stripped(e))| == |s| <==> |s| % 3 == 0)
  {
    hide Body;
    BodyUnpadded(s);
    BodyBack(s);
    EncodedLength(s);
    var e := Encoded(s);
    assert e[..|Body(s)|] == Body(s);
    assert Stripped(e) == Body(s);
  }
}
