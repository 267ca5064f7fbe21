/** The two hand-written base64 decoders (sections 3.5 and 4 of RFC 4648): the strict one of the
    API and the lax one of the WebAssembly module. */
module Base64 {
  import opened Basics

  type Sextet = v: int | 0 <= v < 64

  const UPPER: string := "ABCDEFGHIJKLMNOPQRSTUVWXYZ"
  const LOWER: string := "abcdefghijklmnopqrstuvwxyz"
  const OTHER: string := "0123456789+/"
  const TABLE: string := UPPER + LOWER + OTHER

  const UNUSED: Byte := 255
  const PAD: Byte := '=' as int

  // ---- The alphabet ------------------------------------------------------------------------

  function CharOf(v: Sextet): (c: Byte)
    ensures IsAlphabet(c) && ValueOf(c) == v
  {
    if v < 26 then 'A' as int + v
    else if v < 52 then 'a' as int + (v - 26)
    else if v < 62 then '0' as int + (v - 52)
    else if v == 62 then '+' as int
    else '/' as int
  }

  predicate IsAlphabet(c: Byte) {
    'A' as int <= c <= 'Z' as int || 'a' as int <= c <= 'z' as int || '0' as int <= c <= '9' as int
    || c == '+' as int || c == '/' as int
  }

  function ValueOf(c: Byte): (v: Sextet)
    requires IsAlphabet(c)
  {
    if 'A' as int <= c <= 'Z' as int then c - 'A' as int
    else if 'a' as int <= c <= 'z' as int then c - 'a' as int + 26
    else if '0' as int <= c <= '9' as int then c - '0' as int + 52
    else if c == '+' as int then 62
    else 63
  }

  lemma ValueDecides(c: Byte)
    requires IsAlphabet(c)
    ensures CharOf(ValueOf(c)) == c
  {
  }

  lemma TableSpellsAlphabet(v: Sextet)
    ensures |TABLE| == 64 && TABLE[v] as int == CharOf(v)
  {
    if v < 26 {
      assert TABLE[v] == UPPER[v];
    } else if v < 52 {
      assert TABLE[v] == LOWER[v - 26];
    } else {
      assert TABLE[v] == OTHER[v - 52];
    }
  }

  ghost predicate IsReverseTable(lookup: array<Byte>)
    reads lookup
  {
    lookup.Length == 256
    && forall c: Byte :: if IsAlphabet(c) then lookup[c] == ValueOf(c) != UNUSED else lookup[c] == UNUSED
  }

  /** The reverse table: 255 for every byte outside the alphabet. */
  method BuildLookup() returns (lookup: array<Byte>)
    ensures fresh(lookup) && IsReverseTable(lookup)
  {
    lookup := new Byte[256](_ => UNUSED);
    TableSpellsAlphabet(0);
    for i := 0 to |TABLE|
      invariant forall c: Byte :: lookup[c] == if IsAlphabet(c) && ValueOf(c) < i then ValueOf(c) else UNUSED
    {
      TableSpellsAlphabet(i);
      lookup[TABLE[i] as int] := i;
      forall c: Byte ensures lookup[c] == if IsAlphabet(c) && ValueOf(c) < i + 1 then ValueOf(c) else UNUSED {
        if IsAlphabet(c) {
          ValueDecides(c);
        }
      }
    }
  }

  /** ASCII whitespace: space, tab, line feed, form feed, carriage return. */
  predicate IsWhitespace(c: Byte) {
    c == 0x20 || c == 0x09 || c == 0x0A || c == 0x0C || c == 0x0D
  }

  /** The input without whitespace and padding. */
  function Cleaned(input: seq<Byte>): (cleaned: seq<Byte>) {
    if input == [] then []
    else if !IsWhitespace(input[0]) && input[0] != PAD then [input[0]] + Cleaned(input[1..])
    else Cleaned(input[1..])
  }

  lemma Divide4(n: int, q: int, r: int)
    requires n == 4 * q + r && 0 <= r < 4
    ensures n / 4 == q && n % 4 == r
  {
  }

  lemma Divide16(n: int, q: int, r: int)
    requires n == 16 * q + r && 0 <= r < 16
    ensures n / 16 == q && n % 16 == r
  {
  }

  lemma Divide64(n: int, q: int, r: int)
    requires n == 64 * q + r && 0 <= r < 64
    ensures n / 64 == q && n % 64 == r
  {
  }

  lemma Divide256(n: int, q: int, r: int)
    requires n == 256 * q + r && 0 <= r < 256
    ensures n % 256 == r
  {
  }

  // ---- Bits by position --------------------------------------------------------------------

  /** How many whole bytes `n` sextets fill, and how many sextets `m` bytes need. */
  function ByteCount(n: nat): nat {
    n / 4 * 3 + if n % 4 == 0 then 0 else n % 4 - 1
  }

  function SextetCount(m: nat): nat {
    m / 3 * 4 + if m % 3 == 0 then 0 else m % 3 + 1
  }

  /** Three bytes from four sextets, and four sextets from three bytes. */
  function Byte0(v0: Sextet, v1: Sextet): (b: Byte) { v0 * 4 + v1 / 16 }
  function Byte1(v1: Sextet, v2: Sextet): (b: Byte) { (v1 % 16) * 16 + v2 / 4 }
  function Byte2(v2: Sextet, v3: Sextet): (b: Byte) { (v2 % 4) * 64 + v3 }

  function Sextet0(b0: Byte): (v: Sextet) { b0 / 4 }
  function Sextet1(b0: Byte, b1: Byte): (v: Sextet) { (b0 % 4) * 16 + b1 / 16 }
  function Sextet2(b1: Byte, b2: Byte): (v: Sextet) { (b1 % 16) * 4 + b2 / 64 }
  function Sextet3(b2: Byte): (v: Sextet) { b2 % 64 }

  lemma RepackBytes(b0: Byte, b1: Byte, b2: Byte)
    ensures Byte0(Sextet0(b0), Sextet1(b0, b1)) == b0
    ensures Byte1(Sextet1(b0, b1), Sextet2(b1, b2)) == b1
    ensures Byte2(Sextet2(b1, b2), Sextet3(b2)) == b2
    ensures Sextet1(b0, 0) % 16 == 0 && Sextet2(b1, 0) % 4 == 0
  {
    var x0: int, x1: int, x2: int := b0, b1, b2;
    Divide16(x0 % 4 * 16 + x1 / 16, x0 % 4, x1 / 16);
    Divide4(x1 % 16 * 4 + x2 / 64, x1 % 16, x2 / 64);
    Divide16(x0 % 4 * 16, x0 % 4, 0);
    Divide4(x1 % 16 * 4, x1 % 16, 0);
  }

  lemma RepackSextets(v0: Sextet, v1: Sextet, v2: Sextet, v3: Sextet)
    ensures Sextet0(Byte0(v0, v1)) == v0
    ensures Sextet1(Byte0(v0, v1), Byte1(v1, v2)) == v1
    ensures Sextet2(Byte1(v1, v2), Byte2(v2, v3)) == v2
    ensures Sextet3(Byte2(v2, v3)) == v3
    ensures v1 % 16 == 0 ==> Sextet1(Byte0(v0, v1), 0) == v1
    ensures v2 % 4 == 0 ==> Sextet2(Byte1(v1, v2), 0) == v2
  {
  }

  function ByteAt(v: seq<Sextet>, j: nat): (b: Byte)
    requires j < ByteCount(|v|)
  {
    var q := j / 3;
    if j % 3 == 0 then Byte0(v[4 * q], v[4 * q + 1])
    else if j % 3 == 1 then Byte1(v[4 * q + 1], v[4 * q + 2])
    else Byte2(v[4 * q + 2], v[4 * q + 3])
  }

  function BytesOf(v: seq<Sextet>): (bytes: seq<Byte>)
    ensures |bytes| == ByteCount(|v|)
    ensures forall j :: 0 <= j < |bytes| ==> bytes[j] == ByteAt(v, j)
  {
    seq(ByteCount(|v|), j requires 0 <= j < ByteCount(|v|) => ByteAt(v, j))
  }

  /** The byte at `j`, zero beyond the end. */
  function OrZero(b: seq<Byte>, j: nat): Byte {
    if j < |b| then b[j] else 0
  }

  function SextetAt(b: seq<Byte>, i: nat): (v: Sextet) {
    var q := i / 4;
    if i % 4 == 0 then Sextet0(OrZero(b, 3 * q))
    else if i % 4 == 1 then Sextet1(OrZero(b, 3 * q), OrZero(b, 3 * q + 1))
    else if i % 4 == 2 then Sextet2(OrZero(b, 3 * q + 1), OrZero(b, 3 * q + 2))
    else Sextet3(OrZero(b, 3 * q + 2))
  }

  function SextetsOf(b: seq<Byte>): (v: seq<Sextet>)
    ensures |v| == SextetCount(|b|)
    ensures forall i :: 0 <= i < |v| ==> v[i] == SextetAt(b, i)
  {
    seq(SextetCount(|b|), i requires 0 <= i < SextetCount(|b|) => SextetAt(b, i))
  }

  /** No lone sextet, and zero in the bits past the last byte. */
  predicate Canonical(v: seq<Sextet>) {
    && |v| % 4 != 1
    && (|v| % 4 == 2 ==> v[|v| - 1] % 16 == 0)
    && (|v| % 4 == 3 ==> v[|v| - 1] % 4 == 0)
  }

  lemma SextetsInBlock(b: seq<Byte>, q: nat)
    ensures SextetAt(b, 4 * q) == Sextet0(OrZero(b, 3 * q))
    ensures SextetAt(b, 4 * q + 1) == Sextet1(OrZero(b, 3 * q), OrZero(b, 3 * q + 1))
    ensures SextetAt(b, 4 * q + 2) == Sextet2(OrZero(b, 3 * q + 1), OrZero(b, 3 * q + 2))
    ensures SextetAt(b, 4 * q + 3) == Sextet3(OrZero(b, 3 * q + 2))
  {
    hide Sextet0, Sextet1, Sextet2, Sextet3, OrZero;
    Divide4(4 * q, q, 0);
    Divide4(4 * q + 1, q, 1);
    Divide4(4 * q + 2, q, 2);
    Divide4(4 * q + 3, q, 3);
  }

  lemma CountsMatch(m: nat)
    ensures ByteCount(SextetCount(m)) == m
  {
  }

  lemma ByteRoundTrip(b: seq<Byte>, j: nat)
    requires j < |b|
    ensures ByteCount(SextetCount(|b|)) == |b|
    ensures ByteAt(SextetsOf(b), j) == b[j]
  {
    hide Byte0, Byte1, Byte2, Sextet0, Sextet1, Sextet2, Sextet3;
    CountsMatch(|b|);
    hide ByteCount, SextetCount;
    var q := j / 3;
    SextetsInBlock(b, q);
    RepackBytes(OrZero(b, 3 * q), OrZero(b, 3 * q + 1), OrZero(b, 3 * q + 2));
  }

  lemma TailIsZero(b: seq<Byte>)
    ensures Canonical(SextetsOf(b))
  {
    hide Byte0, Byte1, Byte2, Sextet0, Sextet1, Sextet2, Sextet3;
    var q := |b| / 3;
    SextetsInBlock(b, q);
    RepackBytes(OrZero(b, 3 * q), OrZero(b, 3 * q + 1), 0);
  }

  lemma BytesOfSextets(b: seq<Byte>)
    ensures Canonical(SextetsOf(b)) && BytesOf(SextetsOf(b)) == b
  {
    hide ByteAt, SextetAt, Canonical;
    TailIsZero(b);
    forall j | 0 <= j < |b| ensures ByteAt(SextetsOf(b), j) == b[j] {
      ByteRoundTrip(b, j);
    }
  }

  lemma SextetRoundTrip(v: seq<Sextet>, i: nat)
    requires Canonical(v) && i < |v|
    ensures SextetAt(BytesOf(v), i) == v[i]
  {
    hide Byte0, Byte1, Byte2, Sextet0, Sextet1, Sextet2, Sextet3;
    var q := i / 4;
    var b := BytesOf(v);
    var v2 := if 4 * q + 2 < |v| then v[4 * q + 2] else 0;
    var v3 := if 4 * q + 3 < |v| then v[4 * q + 3] else 0;
    RepackSextets(v[4 * q], v[4 * q + 1], v2, v3);
    BytesInBlock(v, q);
  }

  lemma BytesInBlock(v: seq<Sextet>, q: nat)
    requires 4 * q + 1 < |v|
    ensures OrZero(BytesOf(v), 3 * q) == Byte0(v[4 * q], v[4 * q + 1])
    ensures 4 * q + 2 < |v| ==> OrZero(BytesOf(v), 3 * q + 1) == Byte1(v[4 * q + 1], v[4 * q + 2])
    ensures 4 * q + 3 < |v| ==> OrZero(BytesOf(v), 3 * q + 2) == Byte2(v[4 * q + 2], v[4 * q + 3])
    ensures 4 * q + 2 >= |v| ==> OrZero(BytesOf(v), 3 * q + 1) == 0
    ensures 4 * q + 3 >= |v| ==> OrZero(BytesOf(v), 3 * q + 2) == 0
  {
    hide Byte0, Byte1, Byte2;
    assert (3 * q) / 3 == (3 * q + 1) / 3 == (3 * q + 2) / 3 == q;
  }

  lemma SextetsOfBytes(v: seq<Sextet>)
    requires Canonical(v)
    ensures SextetsOf(BytesOf(v)) == v
  {
    hide ByteAt, SextetAt;
    forall i | 0 <= i < |v| ensures SextetAt(BytesOf(v), i) == v[i] {
      SextetRoundTrip(v, i);
    }
  }

  // ---- The decoders ------------------------------------------------------------------------

  predicate AllAlphabet(c: seq<Byte>) {
    forall k :: 0 <= k < |c| ==> IsAlphabet(c[k])
  }

  function Values(c: seq<Byte>): (v: seq<Sextet>)
    requires AllAlphabet(c)
    ensures |v| == |c| && forall k :: 0 <= k < |v| ==> v[k] == ValueOf(c[k])
  {
    seq(|c|, k requires 0 <= k < |c| => ValueOf(c[k]))
  }

  /** What the lax decoder makes of cleaned input: whole bytes, and the rest dropped. */
  function Lax(c: seq<Byte>): (r: Option<seq<Byte>>) {
    if AllAlphabet(c) then Some(BytesOf(Values(c))) else None
  }

  /** The strict decoder also refuses a lone sextet and data in the bits past the last byte. */
  function Strict(c: seq<Byte>): (r: Option<seq<Byte>>) {
    if AllAlphabet(c) && Canonical(Values(c)) then Some(BytesOf(Values(c))) else None
  }

  /** `2^bits` for the bit counts the loops reach. */
  function Pow2(bits: nat): (p: nat)
    requires bits in {0, 2, 4, 6}
    ensures p > 0
  {
    if bits == 0 then 1 else if bits == 2 then 4 else if bits == 4 then 16 else 64
  }

  const WORD: nat := 0x1_0000_0000

  /** The pending bits after `k` sextets, and where they sit in the 32-bit buffer. */
  ghost predicate Pending(v: seq<Sextet>, k: nat, buffer: nat, bits: nat)
    requires k <= |v|
  {
    && buffer < WORD
    && bits == (if k % 4 == 0 then 0 else 8 - 2 * (k % 4))
    && (k % 4 != 0 ==> buffer % Pow2(bits) == v[k - 1] % Pow2(bits))
  }

  /** One more sextet shifted into the buffer: what falls off the top does not reach the bits
      that are still pending. */
  lemma ShiftIn(buffer: nat, x: Sextet) returns (e: int)
    ensures (buffer * 64 + x) % WORD == 4096 * e + 64 * (buffer % 64) + x
  {
    var m := buffer * 64 + x;
    var n, high := m % WORD, m / WORD;
    assert m == high * WORD + n;
    e := buffer / 64 - 1048576 * high;
  }

  lemma ShiftAfter0(buffer: nat, x: Sextet)
    ensures (buffer * 64 + x) % WORD % 64 == x
  {
    var e := ShiftIn(buffer, x);
    Divide64(4096 * e + 64 * (buffer % 64) + x, 64 * e + buffer % 64, x);
  }

  lemma ShiftAfter6(buffer: nat, v: Sextet, x: Sextet)
    requires buffer % 64 == v
    ensures var n := (buffer * 64 + x) % WORD; n / 16 % 256 == Byte0(v, x) && n % 16 == x % 16
  {
    var e := ShiftIn(buffer, x);
    var h := x / 16;
    assert x == 16 * h + x % 16;
    Divide16(4096 * e + 64 * v + x, 256 * e + (4 * v + h), x % 16);
    Divide256(256 * e + (4 * v + h), e, 4 * v + h);
  }

  lemma ShiftAfter4(buffer: nat, v: Sextet, x: Sextet)
    requires buffer % 16 == v % 16
    ensures var n := (buffer * 64 + x) % WORD; n / 4 % 256 == Byte1(v, x) && n % 4 == x % 4
  {
    var e := ShiftIn(buffer, x);
    var d := buffer % 64;
    var f, g, h := d / 16, v % 16, x / 4;
    Divide16(buffer, 4 * (buffer / 64) + f, d % 16);
    assert d == 16 * f + g && x == 4 * h + x % 4;
    var q := 256 * (4 * e + f) + (16 * g + h);
    Divide4(4096 * e + 64 * d + x, q, x % 4);
    Divide256(q, 4 * e + f, 16 * g + h);
  }

  lemma ShiftAfter2(buffer: nat, v: Sextet, x: Sextet)
    requires buffer % 4 == v % 4
    ensures var n := (buffer * 64 + x) % WORD; n % 256 == Byte2(v, x)
  {
    var e := ShiftIn(buffer, x);
    var d := buffer % 64;
    var f, g := d / 4, v % 4;
    Divide4(buffer, 16 * (buffer / 64) + f, d % 4);
    assert d == 4 * f + g;
    Divide256(4096 * e + 64 * d + x, 16 * e + f, 64 * g + x);
  }

  lemma PendingNext(v: seq<Sextet>, k: nat, buffer: nat, bits: nat)
    requires k < |v| && Pending(v, k, buffer, bits)
    ensures Pending(v, k + 1, (buffer * 64 + v[k]) % WORD, if bits == 0 then 6 else bits - 2)
  {
    hide Byte0, Byte1;
    if bits == 0 {
      ShiftAfter0(buffer, v[k]);
    } else if bits == 6 {
      ShiftAfter6(buffer, v[k - 1], v[k]);
    } else if bits == 4 {
      ShiftAfter4(buffer, v[k - 1], v[k]);
    }
  }

  lemma ByteNext(v: seq<Sextet>, k: nat, buffer: nat, bits: nat)
    requires |v| == k + 1 && Pending(v, k, buffer, bits)
    ensures BytesOf(v) == BytesOf(v[..k])
                        + if bits == 0 then [] else [(buffer * 64 + v[k]) % WORD / Pow2(bits - 2) % 256]
  {
    hide Byte0, Byte1, Byte2, BytesOf, ByteAt, ByteCount;
    BytesGrow(v);
    if bits != 0 {
      LastByte(v);
      if bits == 6 {
        ShiftAfter6(buffer, v[k - 1], v[k]);
      } else if bits == 4 {
        ShiftAfter4(buffer, v[k - 1], v[k]);
      } else {
        ShiftAfter2(buffer, v[k - 1], v[k]);
      }
    }
  }

  lemma LastByte(v: seq<Sextet>)
    requires |v| % 4 != 1 && v != []
    ensures var k := |v| - 1;
            ByteAt(v, ByteCount(k)) == (if k % 4 == 1 then Byte0(v[k - 1], v[k])
                                        else if k % 4 == 2 then Byte1(v[k - 1], v[k])
                                        else Byte2(v[k - 1], v[k]))
  {
    hide Byte0, Byte1, Byte2;
    var k := |v| - 1;
    var q := k / 4;
    assert ByteCount(k) == 3 * q + k % 4 - 1;
  }

  /** One more sextet completes at most one more byte. */
  lemma BytesGrow(v: seq<Sextet>)
    requires v != []
    ensures var k := |v| - 1;
            BytesOf(v) == BytesOf(v[..k]) + if k % 4 == 0 then [] else [ByteAt(v, ByteCount(k))]
  {
    hide Byte0, Byte1, Byte2;
    var k := |v| - 1;
    var front := v[..k];
    forall j | 0 <= j < ByteCount(k) ensures ByteAt(front, j) == ByteAt(v, j) {
      assert forall i :: 0 <= i < k ==> front[i] == v[i];
    }
  }

  method DecodeBase64(input: seq<Byte>) returns (r: Option<seq<Byte>>)
    ensures r == Strict(Cleaned(input))
  {
    hide Cleaned, BytesOf, IsAlphabet, ValueOf;
    var lookup := BuildLookup();
    var cleaned := Cleaned(input);
    var out: seq<Byte> := [];
    var buffer: nat, bits: nat := 0, 0;
    assert BytesOf(Values(cleaned[..0])) == [];
    for k := 0 to |cleaned|
      invariant IsReverseTable(lookup)
      invariant AllAlphabet(cleaned[..k])
      invariant Pending(Values(cleaned[..k]), k, buffer, bits)
      invariant out == BytesOf(Values(cleaned[..k]))
    {
      var value := lookup[cleaned[k]];
      if value == UNUSED {
        return None;
      }
      NextValue(cleaned, k, buffer, bits);
      buffer := (buffer * 64 + value) % WORD;
      bits := bits + 6;
      if bits >= 8 {
        bits := bits - 8;
        out := out + [buffer / Pow2(bits) % 256];
      }
    }
    assert cleaned[..|cleaned|] == cleaned;
    if bits >= 6 || buffer % Pow2(bits) != 0 {
      return None;
    }
    r := Some(out);
  }

  method LaxBase64(input: seq<Byte>) returns (r: Option<seq<Byte>>)
    ensures r == Lax(Cleaned(input))
  {
    hide Cleaned, BytesOf, IsAlphabet, ValueOf;
    var lookup := BuildLookup();
    var cleaned := Cleaned(input);
    var out: seq<Byte> := [];
    var acc: nat, bits: nat := 0, 0;
    assert BytesOf(Values(cleaned[..0])) == [];
    for k := 0 to |cleaned|
      invariant IsReverseTable(lookup)
      invariant AllAlphabet(cleaned[..k])
      invariant Pending(Values(cleaned[..k]), k, acc, bits)
      invariant out == BytesOf(Values(cleaned[..k]))
    {
      var value := lookup[cleaned[k]];
      if value == UNUSED {
        return None;
      }
      NextValue(cleaned, k, acc, bits);
      acc := (acc * 64 + value) % WORD;
      bits := bits + 6;
      if bits >= 8 {
        bits := bits - 8;
        out := out + [acc / Pow2(bits) % 256];
      }
    }
    assert cleaned[..|cleaned|] == cleaned;
    r := Some(out);
  }

  lemma NextValue(c: seq<Byte>, k: nat, buffer: nat, bits: nat)
    requires k < |c| && AllAlphabet(c[..k]) && IsAlphabet(c[k])
    requires Pending(Values(c[..k]), k, buffer, bits)
    ensures AllAlphabet(c[..k + 1])
    ensures var n := (buffer * 64 + ValueOf(c[k])) % WORD;
            && Pending(Values(c[..k + 1]), k + 1, n, if bits == 0 then 6 else bits - 2)
            && BytesOf(Values(c[..k + 1]))
               == BytesOf(Values(c[..k])) + if bits == 0 then [] else [n / Pow2(bits - 2) % 256]
  {
    hide BytesOf, ValueOf, IsAlphabet, Pow2;
    var v := Values(c[..k + 1]);
    assert c[..k + 1][..k] == c[..k];
    assert v[..k] == Values(c[..k]);
    assert k > 0 ==> v[k - 1] == v[..k][k - 1];
    PendingNext(v, k, buffer, bits);
    ByteNext(v, k, buffer, bits);
  }

  // ---- Exactly the encodings ---------------------------------------------------------------

  /** The encoding of `b` without its padding. */
  function Unpadded(b: seq<Byte>): (c: seq<Byte>)
    ensures |c| == |SextetsOf(b)| && AllAlphabet(c) && Values(c) == SextetsOf(b)
  {
    var v := SextetsOf(b);
    var c: seq<Byte> := seq(|v|, i requires 0 <= i < |v| => CharOf(v[i]));
    assert Values(c) == v;
    c
  }

  lemma SameValuesSameChars(c: seq<Byte>, d: seq<Byte>)
    requires AllAlphabet(c) && AllAlphabet(d) && Values(c) == Values(d)
    ensures c == d
  {
    forall k | 0 <= k < |c| ensures c[k] == d[k] {
      assert Values(c)[k] == Values(d)[k];
      ValueDecides(c[k]);
      ValueDecides(d[k]);
    }
  }

  /** The strict decoder returns `b` exactly for the encoding of `b`, whatever whitespace and
      padding it carries. */
  lemma StrictExactly(input: seq<Byte>, b: seq<Byte>)
    ensures Strict(Cleaned(input)) == Some(b) <==> Cleaned(input) == Unpadded(b)
  {
    hide Cleaned, SextetsOf, BytesOf;
    var c := Cleaned(input);
    BytesOfSextets(b);
    if Strict(c) == Some(b) {
      SextetsOfBytes(Values(c));
      SameValuesSameChars(c, Unpadded(b));
    }
  }

  /** What the strict decoder accepts, the lax one decodes alike; it accepts more, namely input
      over the alphabet whose last bits hold no whole byte's data. */
  lemma LaxAgrees(input: seq<Byte>)
    ensures Strict(Cleaned(input)).Some? ==> Lax(Cleaned(input)) == Strict(Cleaned(input))
    ensures Lax(Cleaned(input)).Some? && Strict(Cleaned(input)).None?
       <==> AllAlphabet(Cleaned(input)) && !Canonical(Values(Cleaned(input)))
  {
  }

  function Word24(b0: Byte, b1: Byte, b2: Byte): (n: nat) {
    b0 * 65536 + b1 * 256 + b2
  }

  /** The four characters of one chunk of at most three bytes. */
  function EncodeChunk(chunk: seq<Byte>): (out: seq<Byte>)
    requires chunk != []
  {
    var n := Word24(chunk[0], OrZero(chunk, 1), OrZero(chunk, 2));
    [CharOf(n / 262144 % 64),
     CharOf(n / 4096 % 64),
     if |chunk| > 1 then CharOf(n / 64 % 64) else PAD,
     if |chunk| > 2 then CharOf(n % 64) else PAD]
  }

  /** `encode_base64`, chunk by chunk. */
  function EncodeBase64(bytes: seq<Byte>): (out: seq<Byte>) {
    if bytes == [] then []
    else EncodeChunk(bytes) + EncodeBase64(bytes[if |bytes| > 3 then 3 else |bytes|..])
  }

  lemma ChunkSextets(b0: Byte, b1: Byte, b2: Byte)
    ensures var n := Word24(b0, b1, b2);
            && n / 262144 % 64 == Sextet0(b0) && n / 4096 % 64 == Sextet1(b0, b1)
            && n / 64 % 64 == Sextet2(b1, b2) && n % 64 == Sextet3(b2)
  {
    var n := Word24(b0, b1, b2);
    assert n / 262144 == b0 / 4;
    assert n / 4096 == 64 * (b0 / 4) + (b0 % 4 * 16 + b1 / 16);
    Divide64(n / 4096, b0 / 4, b0 % 4 * 16 + b1 / 16);
    Divide64(n, 1024 * b0 + 4 * b1 + b2 / 64, b2 % 64);
    Divide64(n / 64, 16 * b0 + b1 / 16, b1 % 16 * 4 + b2 / 64);
  }

  lemma OrZeroShift(b: seq<Byte>)
    requires |b| >= 3
    ensures forall j: nat :: OrZero(b[3..], j) == OrZero(b, j + 3)
  {
  }

  lemma SextetsOfChunk(b: seq<Byte>)
    requires |b| > 3
    ensures SextetsOf(b) == [SextetAt(b, 0), SextetAt(b, 1), SextetAt(b, 2), SextetAt(b, 3)] + SextetsOf(b[3..])
  {
    hide Sextet0, Sextet1, Sextet2, Sextet3, OrZero;
    assert forall j: nat :: OrZero(b[3..], j) == OrZero(b, j + 3) by { OrZeroShift(b); }
    forall i | 4 <= i < SextetCount(|b|) ensures SextetAt(b, i) == SextetAt(b[3..], i - 4) {
      assert (i - 4) / 4 == i / 4 - 1;
    }
  }

  lemma {:induction false} CleanedAppend(a: seq<Byte>, b: seq<Byte>)
    ensures Cleaned(a + b) == Cleaned(a) + Cleaned(b)
  {
    if a == [] {
      assert a + b == b;
    } else {
      assert (a + b)[1..] == a[1..] + b;
      CleanedAppend(a[1..], b);
    }
  }

  /** Tab, line feed, form feed, carriage return and space are ignored, and padding; nothing else. */
  lemma IgnoredExactly(w: Byte)
    ensures Cleaned([w]) == (if w in {0x09, 0x0A, 0x0C, 0x0D, 0x20, 0x3D} then [] else [w])
  {
    assert [w][1..] == [];
  }

  /** Whitespace may stand anywhere: any of the five bytes. */
  lemma WhitespaceIgnored(a: seq<Byte>, w: Byte, b: seq<Byte>)
    requires w in {0x09, 0x0A, 0x0C, 0x0D, 0x20}
    ensures Cleaned(a + ([w] + b)) == Cleaned(a + b)
  {
    CleanedAppend(a, [w] + b);
    CleanedAppend(a, b);
    assert ([w] + b)[1..] == b;
  }

  /** The alphabet characters of one encoded chunk. */
  function ChunkChars(b: seq<Byte>): (c: seq<Byte>)
    requires b != []
    ensures AllAlphabet(c)
  {
    var all := [CharOf(SextetAt(b, 0)), CharOf(SextetAt(b, 1)), CharOf(SextetAt(b, 2)), CharOf(SextetAt(b, 3))];
    if |b| == 1 then all[..2] else if |b| == 2 then all[..3] else all
  }

  lemma {:induction false} CleanedKeepsAlphabet(c: seq<Byte>, rest: seq<Byte>)
    requires AllAlphabet(c)
    ensures Cleaned(c + rest) == c + Cleaned(rest)
  {
    if c == [] {
      assert c + rest == rest;
    } else {
      assert (c + rest)[1..] == c[1..] + rest;
      CleanedKeepsAlphabet(c[1..], rest);
    }
  }

  lemma PaddingCleaned(rest: seq<Byte>)
    ensures Cleaned([PAD] + rest) == Cleaned(rest)
  {
    assert ([PAD] + rest)[1..] == rest;
  }

  function Padding(b: seq<Byte>): (c: seq<Byte>) {
    if |b| == 1 then [PAD, PAD] else if |b| == 2 then [PAD] else []
  }

  lemma ChunkSpelled(b: seq<Byte>)
    requires b != []
    ensures EncodeChunk(b) == ChunkChars(b) + Padding(b)
  {
    hide CharOf, Sextet0, Sextet1, Sextet2, Sextet3, Word24, SextetAt;
    ChunkSextets(b[0], OrZero(b, 1), OrZero(b, 2));
    SextetsInBlock(b, 0);
  }

  lemma Assoc(a: seq<Byte>, b: seq<Byte>, c: seq<Byte>)
    ensures (a + b) + c == a + (b + c)
  {
  }

  lemma EncodedChunk(b: seq<Byte>)
    requires b != []
    ensures Cleaned(EncodeBase64(b)) == ChunkChars(b) + Cleaned(EncodeBase64(b[if |b| > 3 then 3 else |b|..]))
  {
    hide EncodeChunk, ChunkChars, Cleaned, Padding;
    var rest := EncodeBase64(b[if |b| > 3 then 3 else |b|..]);
    ChunkSpelled(b);
    Assoc(ChunkChars(b), Padding(b), rest);
    CleanedKeepsAlphabet(ChunkChars(b), Padding(b) + rest);
    PaddingDropped(b, rest);
  }

  lemma PaddingDropped(b: seq<Byte>, rest: seq<Byte>)
    ensures Cleaned(Padding(b) + rest) == Cleaned(rest)
  {
    PaddingCleaned(rest);
    if |b| == 1 {
      PaddingCleaned([PAD] + rest);
      assert [PAD, PAD] + rest == [PAD] + ([PAD] + rest);
    } else if |b| != 2 {
      assert [] + rest == rest;
    }
  }

  lemma UnpaddedChunk(b: seq<Byte>)
    requires b != []
    ensures Unpadded(b) == ChunkChars(b) + Unpadded(b[if |b| > 3 then 3 else |b|..])
  {
    hide CharOf, SextetAt;
    if |b| > 3 {
      SextetsOfChunk(b);
    } else {
      assert b[|b|..] == [];
    }
  }

  /** The encoder's output is the unpadded encoding once padding is dropped. */
  lemma {:induction false} EncodedIsUnpadded(b: seq<Byte>)
    ensures Cleaned(EncodeBase64(b)) == Unpadded(b)
    decreases |b|
  {
    hide Unpadded, ChunkChars;
    if b != [] {
      EncodedChunk(b);
      UnpaddedChunk(b);
      EncodedIsUnpadded(b[if |b| > 3 then 3 else |b|..]);
    } else {
      UnpaddedNothing();
    }
  }

  lemma UnpaddedNothing()
    ensures Unpadded([]) == []
  {
  }

  /** An encoded document decodes to itself in both decoders, whatever whitespace it picks up. */
  lemma EncodedDecodes(input: seq<Byte>, b: seq<Byte>)
    requires Cleaned(input) == Cleaned(EncodeBase64(b))
    ensures Strict(Cleaned(input)) == Some(b) && Lax(Cleaned(input)) == Some(b)
  {
    EncodedIsUnpadded(b);
    StrictExactly(input, b);
    LaxAgrees(input);
  }
}
