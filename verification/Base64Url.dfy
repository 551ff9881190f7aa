/**
 The unpadded base64url text of access tokens (gateway/auth.py; section 5 of RFC 4648).

 Encoding pads and then strips the padding. Decoding puts the padding back, runs the
 lenient decoder of Python's `binascii`, which skips characters outside the alphabet and
 stops at a complete padding, and then accepts only a text that encoding would produce.
 */
module Base64Url {
  import opened JsonValue

  type Byte = n: int | 0 <= n < 256

  function Symbol(v: int): (c: char)
    requires 0 <= v < 64
    ensures c != '=' && c != '.'
  {
    if v < 26 then 'A' + v as char
    else if v < 52 then 'a' + (v - 26) as char
    else if v < 62 then '0' + (v - 52) as char
    else if v == 62 then '-' else '_'
  }

  /** The value of a character to the decoder, which also knows the standard alphabet's two symbols. */
  function Value(c: char): (v: Option<int>)
    ensures v.Some? ==> 0 <= v.value < 64
  {
    if 'A' <= c <= 'Z' then Some((c - 'A') as int)
    else if 'a' <= c <= 'z' then Some((c - 'a') as int + 26)
    else if '0' <= c <= '9' then Some((c - '0') as int + 52)
    else if c == '-' || c == '+' then Some(62)
    else if c == '_' || c == '/' then Some(63)
    else None
  }

  lemma ValueOfSymbol(v: int)
    requires 0 <= v < 64
    ensures Value(Symbol(v)) == Some(v)
  {
  }

  // ---------------------------------------------------------------- encoding

  /** Four symbols for three bytes. */
  function Group(a: Byte, b: Byte, c: Byte): string {
    [Symbol(a / 4), Symbol(a % 4 * 16 + b / 16), Symbol(b % 16 * 4 + c / 64), Symbol(c % 64)]
  }

  function Padded(b: seq<Byte>): string {
    if b == [] then ""
    else if |b| == 1 then Group(b[0], 0, 0)[..2] + "=="
    else if |b| == 2 then Group(b[0], b[1], 0)[..3] + "="
    else Group(b[0], b[1], b[2]) + Padded(b[3..])
  }

  function StripPadding(s: string): string {
    if s != "" && s[|s| - 1] == '=' then StripPadding(s[..|s| - 1]) else s
  }

  function Encode(b: seq<Byte>): string {
    StripPadding(Padded(b))
  }

  /** The same text, written without padding in the first place. */
  function Bare(b: seq<Byte>): string {
    if b == [] then ""
    else if |b| == 1 then Group(b[0], 0, 0)[..2]
    else if |b| == 2 then Group(b[0], b[1], 0)[..3]
    else Group(b[0], b[1], b[2]) + Bare(b[3..])
  }

  function Padding(n: nat): string {
    if n % 4 == 0 then "" else if n % 4 == 3 then "=" else if n % 4 == 2 then "==" else "==="
  }

  predicate InAlphabet(s: string) {
    forall i | 0 <= i < |s| :: s[i] != '=' && s[i] != '.' && Value(s[i]).Some? && s[i] < 128 as char
  }

  lemma {:induction false} BareInAlphabet(b: seq<Byte>)
    ensures InAlphabet(Bare(b))
  {
    if |b| >= 3 {
      BareInAlphabet(b[3..]);
    }
    forall v | 0 <= v < 64 ensures Value(Symbol(v)).Some? {
      ValueOfSymbol(v);
    }
  }

  lemma {:induction false} PaddedIsBarePlusPadding(b: seq<Byte>)
    ensures Padded(b) == Bare(b) + Padding(|Bare(b)|) && |Bare(b)| % 4 != 1
  {
    hide Symbol;
    if |b| >= 3 {
      PaddedIsBarePlusPadding(b[3..]);
      assert |Bare(b)| == 4 + |Bare(b[3..])|;
    }
  }

  lemma StripOnly(s: string, pad: string)
    requires s == "" || s[|s| - 1] != '='
    requires forall i | 0 <= i < |pad| :: pad[i] == '='
    ensures StripPadding(s + pad) == s
    decreases |pad|
  {
    if pad == "" {
      assert s + pad == s;
    } else {
      assert (s + pad)[..|s + pad| - 1] == s + pad[..|pad| - 1];
      StripOnly(s, pad[..|pad| - 1]);
    }
  }

  lemma EncodeIsBare(b: seq<Byte>)
    ensures Encode(b) == Bare(b)
  {
    PaddedIsBarePlusPadding(b);
    BareInAlphabet(b);
    StripOnly(Bare(b), Padding(|Bare(b)|));
  }

  // ---------------------------------------------------------------- decoding

  /**
   The lenient decoder from a position inside a group of four: `left` holds the bits not yet
   written, `pads` the padding seen since the last symbol.
   */
  function Scan(s: string, pos: int, left: int, pads: int): Option<seq<Byte>>
    requires 0 <= pos < 4 && 0 <= pads
    requires if pos == 1 then 0 <= left < 64 else if pos == 2 then 0 <= left < 16 else 0 <= left < 4
    decreases |s|
  {
    if s == "" then if pos == 0 then Some([]) else None
    else if s[0] == '=' then
      if pos >= 2 && pos + pads + 1 >= 4 then Some([])
      else Scan(s[1..], pos, left, if pos >= 2 then pads + 1 else pads)
    else
      var v := Value(s[0]);
      if v.None? then Scan(s[1..], pos, left, pads)
      else if pos == 0 then Scan(s[1..], 1, v.value, 0)
      else if pos == 1 then Then(left * 4 + v.value / 16, Scan(s[1..], 2, v.value % 16, 0))
      else if pos == 2 then Then(left * 16 + v.value / 4, Scan(s[1..], 3, v.value % 4, 0))
      else Then(left * 64 + v.value, Scan(s[1..], 0, 0, 0))
  }

  lemma ThenNothing(b: Byte)
    ensures Then(b, Some([])) == Some([b])
  {
    assert [b] + [] == [b];
  }

  function Then(b: Byte, rest: Option<seq<Byte>>): Option<seq<Byte>> {
    if rest.Some? then Some([b] + rest.value) else None
  }

  predicate Ascii(s: string) {
    forall i | 0 <= i < |s| :: s[i] < 128 as char
  }

  /** Accepts a text only if it is the encoding of what it decodes to. */
  function Decode(s: string): Option<seq<Byte>> {
    if !Ascii(s) then None
    else
      var b := Scan(s + Padding(|s|), 0, 0, 0);
      if b.Some? && Encode(b.value) == s then b else None
  }

  lemma ScanSymbol(v: int, rest: string, pos: int, left: int, pads: int)
    requires 0 <= v < 64 && 0 <= pos < 4 && 0 <= pads
    requires if pos == 1 then 0 <= left < 64 else if pos == 2 then 0 <= left < 16 else 0 <= left < 4
    ensures Scan([Symbol(v)] + rest, pos, left, pads) ==
      if pos == 0 then Scan(rest, 1, v, 0)
      else if pos == 1 then Then(left * 4 + v / 16, Scan(rest, 2, v % 16, 0))
      else if pos == 2 then Then(left * 16 + v / 4, Scan(rest, 3, v % 4, 0))
      else Then(left * 64 + v, Scan(rest, 0, 0, 0))
  {
    ValueOfSymbol(v);
    assert ([Symbol(v)] + rest)[1..] == rest;
  }

  /** The bits of three bytes, cut into four and put together again. */
  lemma Bits(a: Byte, b: Byte, c: Byte)
    ensures
      var w, x, y, z := a / 4, a % 4 * 16 + b / 16, b % 16 * 4 + c / 64, c % 64;
      0 <= w < 64 && 0 <= x < 64 && 0 <= y < 64 && 0 <= z < 64
      && w * 4 + x / 16 == a && x % 16 * 16 + y / 4 == b && y % 4 * 64 + z == c
  {
  }

  lemma ScanTwo(w: int, x: int, rest: string)
    requires 0 <= w < 64 && 0 <= x < 64
    ensures Scan([Symbol(w), Symbol(x)] + rest, 0, 0, 0) == Then(w * 4 + x / 16, Scan(rest, 2, x % 16, 0))
  {
    hide Scan, Symbol, Value;
    assert [Symbol(w), Symbol(x)] + rest == [Symbol(w)] + ([Symbol(x)] + rest);
    ScanSymbol(w, [Symbol(x)] + rest, 0, 0, 0);
    ScanSymbol(x, rest, 1, w, 0);
  }

  lemma ScanGroup(a: Byte, b: Byte, c: Byte, rest: string)
    ensures Scan(Group(a, b, c) + rest, 0, 0, 0) == Then(a, Then(b, Then(c, Scan(rest, 0, 0, 0))))
  {
    hide Scan, Symbol, Value, Then;
    Bits(a, b, c);
    var w, x, y, z := a / 4, a % 4 * 16 + b / 16, b % 16 * 4 + c / 64, c % 64;
    assert Group(a, b, c) + rest == [Symbol(w), Symbol(x)] + ([Symbol(y)] + ([Symbol(z)] + rest));
    ScanTwo(w, x, [Symbol(y)] + ([Symbol(z)] + rest));
    ScanSymbol(y, [Symbol(z)] + rest, 2, x % 16, 0);
    ScanSymbol(z, rest, 3, y % 4, 0);
  }

  lemma ScanPadding(left: int)
    requires 0 <= left < 16
    ensures Scan("==", 2, left, 0) == Some([])
    ensures left < 4 ==> Scan("=", 3, left, 0) == Some([])
  {
    assert "=="[1..] == "=";
    assert Scan("=", 2, left, 1) == Some([]);
  }

  lemma ScanOne(a: Byte)
    ensures Scan(Group(a, 0, 0)[..2] + "==", 0, 0, 0) == Some([a])
  {
    hide Scan, Symbol, Value;
    Bits(a, 0, 0);
    var w, x := a / 4, a % 4 * 16 + 0 / 16;
    assert Group(a, 0, 0)[..2] == [Symbol(w), Symbol(x)];
    ScanTwo(w, x, "==");
    ScanPadding(x % 16);
    ThenNothing(a);
  }

  lemma ScanTwoBytes(a: Byte, b: Byte)
    ensures Scan(Group(a, b, 0)[..3] + "=", 0, 0, 0) == Some([a, b])
  {
    hide Scan, Symbol, Value;
    Bits(a, b, 0);
    var w, x, y := a / 4, a % 4 * 16 + b / 16, b % 16 * 4 + 0 / 64;
    assert Group(a, b, 0)[..3] + "=" == [Symbol(w), Symbol(x)] + ([Symbol(y)] + "=");
    ScanTwo(w, x, [Symbol(y)] + "=");
    ScanSymbol(y, "=", 2, x % 16, 0);
    ScanPadding(y % 4);
    ThenNothing(b);
    assert [a] + [b] == [a, b];
  }

  lemma {:induction false} ScanPadded(b: seq<Byte>)
    ensures Scan(Padded(b), 0, 0, 0) == Some(b)
  {
    if b != [] {
      hide Scan, Group;
      if |b| == 1 {
        ScanOne(b[0]);
        assert b == [b[0]];
      } else if |b| == 2 {
        ScanTwoBytes(b[0], b[1]);
        assert b == [b[0], b[1]];
      } else {
        ScanGroup(b[0], b[1], b[2], Padded(b[3..]));
        ScanPadded(b[3..]);
        assert [b[0]] + ([b[1]] + ([b[2]] + b[3..])) == b;
      }
    }
  }

  /** Decoding undoes encoding for every byte string. */
  lemma DecodeEncode(b: seq<Byte>)
    ensures Decode(Encode(b)) == Some(b)
  {
    EncodeIsBare(b);
    PaddedIsBarePlusPadding(b);
    BareInAlphabet(b);
    ScanPadded(b);
  }

  /** A text decodes exactly when it is the encoding of some bytes, and then to those bytes. */
  lemma DecodeIff(s: string, b: seq<Byte>)
    ensures Decode(s) == Some(b) <==> s == Encode(b)
  {
    DecodeEncode(b);
  }

  /** No two texts decode to the same bytes. */
  lemma DecodeInjective(s: string, t: string)
    requires Decode(s).Some? && Decode(s) == Decode(t)
    ensures s == t
  {
    DecodeIff(s, Decode(s).value);
    DecodeIff(t, Decode(s).value);
  }

  // ---------------------------------------------------------------- the text, bit by bit

  /** So many characters of the code table from a first one on. */
  function Letters(first: char, n: nat): string
    requires first as int + n < 128
  {
    seq(n, i requires 0 <= i < n => (first as int + i) as char)
  }

  /** The alphabet of section 5 of RFC 4648. */
  const ALPHABET := Letters('A', 26) + Letters('a', 26) + Letters('0', 10) + "-_"

  lemma SymbolIs(v: int)
    requires 0 <= v < 64
    ensures |ALPHABET| == 64 && Symbol(v) == ALPHABET[v]
  {
  }

  function Shifted(n: Byte, places: nat): Byte {
    if places == 0 then n else Shifted(n / 2, places - 1)
  }

  /** Bit `j` of a byte, the most significant first. */
  function BitOf(n: Byte, j: nat): int
    requires j < 8
  {
    Shifted(n, 7 - j) % 2
  }

  /** Bit `k` of a byte string; past the end all bits are zero. */
  function Bit(b: seq<Byte>, k: nat): int {
    if k / 8 < |b| then BitOf(b[k / 8], k % 8) else 0
  }

  /** The six bits from bit `6 * i` on, as a number. */
  function Sextet(b: seq<Byte>, i: nat): int {
    32 * Bit(b, 6 * i) + 16 * Bit(b, 6 * i + 1) + 8 * Bit(b, 6 * i + 2)
    + 4 * Bit(b, 6 * i + 3) + 2 * Bit(b, 6 * i + 4) + Bit(b, 6 * i + 5)
  }

  lemma ByteBits(n: Byte)
    ensures n == 128 * BitOf(n, 0) + 64 * BitOf(n, 1) + 32 * BitOf(n, 2) + 16 * BitOf(n, 3)
              + 8 * BitOf(n, 4) + 4 * BitOf(n, 5) + 2 * BitOf(n, 6) + BitOf(n, 7)
    ensures forall j: nat | j < 8 :: 0 <= BitOf(n, j) <= 1
  {
    forall k: nat ensures Shifted(n, k + 1) == Shifted(n, k) / 2 {
      ShiftedNext(n, k);
    }
    hide Shifted;
    var n1, n2, n3, n4 := Shifted(n, 0 + 1), Shifted(n, 1 + 1), Shifted(n, 2 + 1), Shifted(n, 3 + 1);
    var n5, n6, n7 := Shifted(n, 4 + 1), Shifted(n, 5 + 1), Shifted(n, 6 + 1);
    assert Shifted(n, 0) == n by { ShiftedNone(n); }
    assert n7 == n6 / 2 && n6 == n5 / 2 && n5 == n4 / 2 && n4 == n3 / 2;
    assert n3 == n2 / 2 && n2 == n1 / 2 && n1 == n / 2;
    assert 0 <= n7 <= 1;
  }

  lemma {:induction false} ShiftedZero(k: nat)
    ensures Shifted(0, k) == 0
  {
    if k > 0 { ShiftedZero(k - 1); }
  }

  lemma ShiftedNone(n: Byte)
    ensures Shifted(n, 0) == n
  {
  }

  lemma {:induction false} ShiftedNext(n: Byte, k: nat)
    ensures Shifted(n, k + 1) == Shifted(n, k) / 2
  {
    if k > 0 { ShiftedNext(n / 2, k - 1); }
  }

  /** The first four sextets of a byte string, by its first three bytes. */
  lemma FirstSextets(b: seq<Byte>, x: Byte, y: Byte, z: Byte)
    requires b != [] && x == b[0] && y == (if |b| > 1 then b[1] else 0) && z == (if |b| > 2 then b[2] else 0)
    ensures Sextet(b, 0) == x / 4 && Sextet(b, 1) == x % 4 * 16 + y / 16
    ensures Sextet(b, 2) == y % 16 * 4 + z / 64 && Sextet(b, 3) == z % 64
  {
    forall j: nat | j < 8 ensures BitOf(0, j) == 0 { ShiftedZero(7 - j); }
    hide BitOf;
    assert forall j: nat | j < 8 :: Bit(b, j) == BitOf(x, j);
    assert forall j: nat | j < 8 :: Bit(b, 8 + j) == BitOf(y, j);
    assert forall j: nat | j < 8 :: Bit(b, 16 + j) == BitOf(z, j);
    ByteBits(x);
    ByteBits(y);
    ByteBits(z);
    hide Bit;
    assert Bit(b, 6) == BitOf(x, 6) && Bit(b, 7) == BitOf(x, 7);
    assert Bit(b, 8) == BitOf(y, 0) && Bit(b, 9) == BitOf(y, 1) && Bit(b, 10) == BitOf(y, 2);
    assert Bit(b, 11) == BitOf(y, 3) && Bit(b, 12) == BitOf(y, 4) && Bit(b, 13) == BitOf(y, 5);
    assert Bit(b, 14) == BitOf(y, 6) && Bit(b, 15) == BitOf(y, 7) && Bit(b, 16) == BitOf(z, 0);
    assert Bit(b, 17) == BitOf(z, 1) && Bit(b, 18) == BitOf(z, 2) && Bit(b, 19) == BitOf(z, 3);
    assert Bit(b, 20) == BitOf(z, 4) && Bit(b, 21) == BitOf(z, 5) && Bit(b, 22) == BitOf(z, 6);
    assert Bit(b, 23) == BitOf(z, 7);
  }

  lemma LaterBit(b: seq<Byte>, k: nat)
    requires |b| >= 3
    ensures Bit(b, k + 24) == Bit(b[3..], k)
  {
    assert (k + 24) / 8 == k / 8 + 3 && (k + 24) % 8 == k % 8;
  }

  lemma LaterSextet(b: seq<Byte>, i: nat)
    requires |b| >= 3
    ensures Sextet(b, i + 4) == Sextet(b[3..], i)
  {
    forall k: nat ensures Bit(b, k + 24) == Bit(b[3..], k) {
      LaterBit(b, k);
    }
    hide Bit;
    assert 6 * (i + 4) == 6 * i + 24;
    assert Bit(b, 6 * i + 1 + 24) == Bit(b[3..], 6 * i + 1) && Bit(b, 6 * i + 2 + 24) == Bit(b[3..], 6 * i + 2);
    assert Bit(b, 6 * i + 3 + 24) == Bit(b[3..], 6 * i + 3) && Bit(b, 6 * i + 4 + 24) == Bit(b[3..], 6 * i + 4);
    assert Bit(b, 6 * i + 5 + 24) == Bit(b[3..], 6 * i + 5);
  }

  /** The symbols of a first group are those of the first sextets. */
  lemma FirstSymbols(b: seq<Byte>, x: Byte, y: Byte, z: Byte, i: nat)
    requires b != [] && x == b[0] && y == (if |b| > 1 then b[1] else 0) && z == (if |b| > 2 then b[2] else 0)
    requires i < 4
    ensures 0 <= Sextet(b, i) < |ALPHABET| && |Group(x, y, z)| == 4 && Group(x, y, z)[i] == ALPHABET[Sextet(b, i)]
  {
    FirstSextets(b, x, y, z);
    Bits(x, y, z);
    hide Sextet, Symbol;
    SymbolIs(x / 4);
    SymbolIs(x % 4 * 16 + y / 16);
    SymbolIs(y % 16 * 4 + z / 64);
    SymbolIs(z % 64);
  }

  /** The text has one symbol for every six bits begun, each the one of those six bits. */
  lemma {:induction false} EncodeSpells(b: seq<Byte>, i: nat)
    ensures |Bare(b)| == (8 * |b| + 5) / 6
    ensures i < |Bare(b)| ==> 0 <= Sextet(b, i) < |ALPHABET| && Bare(b)[i] == ALPHABET[Sextet(b, i)]
  {
    hide Sextet, Group;
    if b != [] {
      var x, y, z := b[0], if |b| > 1 then b[1] else 0, if |b| > 2 then b[2] else 0;
      FirstSymbols(b, x, y, z, if i < 4 then i else 0);
      if |b| >= 3 {
        EncodeSpells(b[3..], if i >= 4 then i - 4 else 0);
        if i >= 4 { LaterSextet(b, i - 4); }
      }
    }
  }

  lemma EncodeBits(b: seq<Byte>)
    ensures |Encode(b)| == (8 * |b| + 5) / 6
    ensures forall i: nat | i < |Encode(b)| :: 0 <= Sextet(b, i) < |ALPHABET| && Encode(b)[i] == ALPHABET[Sextet(b, i)]
  {
    EncodeIsBare(b);
    EncodeSpells(b, 0);
    hide Encode, Sextet, Bare;
    forall i: nat | i < |Encode(b)|
      ensures 0 <= Sextet(b, i) < |ALPHABET| && Encode(b)[i] == ALPHABET[Sextet(b, i)]
    {
      EncodeSpells(b, i);
    }
  }
}
