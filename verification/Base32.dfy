/**
 Base32, lower case, without padding characters (sections 3.5 and 6 of
 RFC 4648). The specification regroups one long bit string; the methods are
 the shift-register loops, which hold at most twelve live bits in a 16-bit
 word and let the spent ones drift out of its top.
 */
module Base32 {
  import opened Wrappers
  import opened MachineInt

  const ALPHABET := "abcdefghijklmnopqrstuvwxyz234567"

  predicate IsDigit(c: char) {
    'a' <= c <= 'z' || '2' <= c <= '7'
  }

  function DigitValue(c: char): (v: nat)
    requires IsDigit(c)
    ensures v < 32
  {
    if c <= '7' then c as int - '2' as int + 26 else c as int - 'a' as int
  }

  function Digit(v: nat): (c: char)
    requires v < 32
    ensures IsDigit(c) && DigitValue(c) == v
  {
    if v < 26 then ('a' as int + v) as char else ('2' as int + v - 26) as char
  }

  /** The digits are the characters of the alphabet, in its order. */
  lemma AlphabetLists(v: nat)
    requires v < 32
    ensures ALPHABET[v] == Digit(v)
  {
  }

  lemma DigitOfValue(c: char)
    requires IsDigit(c)
    ensures Digit(DigitValue(c)) == c
  {
  }

  predicate AllDigits(s: string) {
    forall i :: 0 <= i < |s| ==> IsDigit(s[i])
  }

  // ---- The bit strings two spellings stand for ----

  function ByteBits(b: seq<byte>): (bits: seq<bool>)
    ensures |bits| == 8 * |b|
  {
    if b == [] then [] else ByteBits(b[..|b| - 1]) + Bits(b[|b| - 1], 8)
  }

  function DigitBits(s: string): (bits: seq<bool>)
    requires AllDigits(s)
    ensures |bits| == 5 * |s|
  {
    if s == [] then [] else DigitBits(s[..|s| - 1]) + Bits(DigitValue(s[|s| - 1]), 5)
  }

  /** `s` spells `b`: the bits of `b`, then fewer than five zero bits to fill the last digit. */
  ghost predicate Spells(s: string, b: seq<byte>) {
    && AllDigits(s)
    && exists k: nat :: k < 5 && ByteBits(b) + Zeros(k) == DigitBits(s)
  }

  // ---- Regrouping ----

  function ToDigits(bits: seq<bool>): string
    requires |bits| % 5 == 0
  {
    if bits == [] then []
    else
      var n := |bits| - 5;
      LastFive(bits);
      ToDigits(bits[..n]) + [Digit(FromBits(bits[n..]))]
  }

  lemma {:induction false} ToDigitsSpell(bits: seq<bool>)
    requires |bits| % 5 == 0
    ensures AllDigits(ToDigits(bits)) && DigitBits(ToDigits(bits)) == bits
  {
    if bits != [] {
      var n := |bits| - 5;
      LastFive(bits);
      hide Bits, FromBits, DigitBits, Digit, DigitValue;
      ToDigitsSpell(bits[..n]);
      DigitBitsAppend(ToDigits(bits[..n]), Digit(FromBits(bits[n..])));
    }
  }

  lemma LastFive(bits: seq<bool>)
    requires |bits| >= 5
    ensures var n := |bits| - 5;
            bits[..n] + bits[n..] == bits && FromBits(bits[n..]) < 32 && Bits(FromBits(bits[n..]), 5) == bits[n..]
  {
    Pow2Of5();
    BitsFromBits(bits[|bits| - 5..]);
  }

  lemma DigitBitsAppend(s: string, c: char)
    requires AllDigits(s) && IsDigit(c)
    ensures AllDigits(s + [c]) && DigitBits(s + [c]) == DigitBits(s) + Bits(DigitValue(c), 5)
  {
    assert (s + [c])[..|s|] == s;
  }

  lemma ByteBitsAppend(b: seq<byte>, x: byte)
    ensures ByteBits(b + [x]) == ByteBits(b) + Bits(x, 8)
  {
    assert (b + [x])[..|b|] == b;
  }

  /** The spelling of `b`: there is exactly one. */
  ghost function Encode(b: seq<byte>): (s: string)
    ensures Spells(s, b)
  {
    SpellingExists(b);
    var s :| Spells(s, b);
    s
  }

  /** The bytes `s` spells, if any: there is at most one such sequence. */
  ghost function Decode(s: string): Option<seq<byte>> {
    if exists b :: Spells(s, b) then
      var b :| Spells(s, b);
      Some(b)
    else None
  }

  lemma SpellingExists(b: seq<byte>)
    ensures exists s :: Spells(s, b)
  {
    hide ByteBits, ToDigits, DigitBits;
    var bits := ByteBits(b);
    var k := 4 - (|bits| + 4) % 5;
    var s := ToDigits(bits + Zeros(k));
    ToDigitsSpell(bits + Zeros(k));
    assert Spells(s, b);
  }

  lemma SplitEqual(p: seq<bool>, q: seq<bool>, x: seq<bool>, y: seq<bool>)
    requires |x| == |y| && p + x == q + y
    ensures p == q && x == y
  {
    assert p == (p + x)[..|p|] && q == (q + y)[..|q|];
    assert x == (p + x)[|p|..] && y == (q + y)[|q|..];
  }

  lemma BitsInjective(x: nat, y: nat, n: nat)
    requires x < Pow2(n) && y < Pow2(n) && Bits(x, n) == Bits(y, n)
    ensures x == y
  {
    FromBitsBits(x, n);
    FromBitsBits(y, n);
  }

  lemma {:induction false} ByteBitsInjective(a: seq<byte>, b: seq<byte>)
    requires ByteBits(a) == ByteBits(b)
    ensures a == b
  {
    if a != [] && b != [] {
      var m, n := |a| - 1, |b| - 1;
      Pow2Of8();
      hide Bits, Pow2;
      SplitEqual(ByteBits(a[..m]), ByteBits(b[..n]), Bits(a[m], 8), Bits(b[n], 8));
      ByteBitsInjective(a[..m], b[..n]);
      BitsInjective(a[m], b[n], 8);
    }
  }

  lemma {:induction false} DigitBitsInjective(s: string, t: string)
    requires AllDigits(s) && AllDigits(t) && DigitBits(s) == DigitBits(t)
    ensures s == t
  {
    if s != [] && t != [] {
      var m, n := |s| - 1, |t| - 1;
      Pow2Of5();
      hide Bits, Pow2;
      SplitEqual(DigitBits(s[..m]), DigitBits(t[..n]), Bits(DigitValue(s[m]), 5), Bits(DigitValue(t[n]), 5));
      DigitBitsInjective(s[..m], t[..n]);
      BitsInjective(DigitValue(s[m]), DigitValue(t[n]), 5);
      DigitOfValue(s[m]);
      DigitOfValue(t[n]);
    }
  }

  // ---- Both directions meet the one relation, so they undo each other ----

  /** Bytes followed by fewer than eight bits split in one way only. */
  lemma SplitBytes(a: seq<byte>, x: seq<bool>, b: seq<byte>, y: seq<bool>)
    requires |x| < 8 && |y| < 8 && ByteBits(a) + x == ByteBits(b) + y
    ensures a == b && x == y
  {
    hide ByteBits;
    assert 8 * |a| + |x| == 8 * |b| + |y|;
    SplitEqual(ByteBits(a), ByteBits(b), x, y);
    ByteBitsInjective(a, b);
  }

  lemma SpelledUnique(s: string, a: seq<byte>, b: seq<byte>)
    requires Spells(s, a) && Spells(s, b)
    ensures a == b
  {
    var j: nat :| j < 5 && ByteBits(a) + Zeros(j) == DigitBits(s);
    var k: nat :| k < 5 && ByteBits(b) + Zeros(k) == DigitBits(s);
    SplitBytes(a, Zeros(j), b, Zeros(k));
  }

  lemma DecodeIffSpells(s: string, b: seq<byte>)
    ensures Decode(s) == Some(b) <==> Spells(s, b)
  {
    if Spells(s, b) {
      SpelledUnique(s, b, Decode(s).value);
    }
  }

  lemma SpellingUnique(s: string, t: string, b: seq<byte>)
    requires Spells(s, b) && Spells(t, b)
    ensures s == t
  {
    hide ByteBits, DigitBits;
    var k: nat :| k < 5 && ByteBits(b) + Zeros(k) == DigitBits(s);
    var j: nat :| j < 5 && ByteBits(b) + Zeros(j) == DigitBits(t);
    assert 8 * |b| + k == 5 * |s| && 8 * |b| + j == 5 * |t|;
    DigitBitsInjective(s, t);
  }

  lemma EncodeIffSpells(s: string, b: seq<byte>)
    ensures Encode(b) == s <==> Spells(s, b)
  {
    if Spells(s, b) {
      SpellingUnique(s, Encode(b), b);
    }
  }

  /** What was encoded decodes to itself, for every byte sequence. */
  lemma DecodeOfEncode(b: seq<byte>)
    ensures Decode(Encode(b)) == Some(b)
  {
    EncodeIffSpells(Encode(b), b);
    DecodeIffSpells(Encode(b), b);
  }

  /** Every accepted string is the one spelling of what it decodes to. */
  lemma EncodeOfDecode(s: string)
    requires Decode(s).Some?
    ensures Encode(Decode(s).value) == s
  {
    DecodeIffSpells(s, Decode(s).value);
    EncodeIffSpells(s, Decode(s).value);
  }

  // ---- The shift registers ----

  /** Shifting `m` fresh bits into the 16-bit register extends its live bits. */
  lemma ShiftIn(buffer: nat, live: nat, x: nat, m: nat)
    requires x < Pow2(m) && live + m <= 16
    ensures Or(Shl(buffer, m, U16), x) < U16
    ensures Bits(Or(Shl(buffer, m, U16), x), live + m) == Bits(buffer, live) + Bits(x, m)
  {
    var kept := buffer % Pow2(16 - m);
    Pow2Of16();
    ShiftOr(buffer, m, 16, x);
    BitsConcat(kept, x, live, m);
    BitsMod(buffer, live, 16 - m);
  }

  /** Shifts `x` into the register and accounts for the bits already emitted before it. */
  method Absorb(ghost done: seq<bool>, buffer: nat, ghost live: nat, x: nat, m: nat) returns (r: nat)
    requires x < Pow2(m) && live + m <= 16
    ensures r < U16
    ensures done + Bits(r, live + m) == done + Bits(buffer, live) + Bits(x, m)
  {
    ShiftIn(buffer, live, x, m);
    Reassociate(done, Bits(buffer, live), Bits(x, m));
    r := Or(Shl(buffer, m, U16), x);
  }

  lemma NoSpelling(s: string, i: nat)
    requires i < |s| && !IsDigit(s[i])
    ensures Decode(s) == None
  {
    assert !AllDigits(s);
  }

  lemma Pow2Of8()
    ensures Pow2(8) == 256
  {
  }

  lemma Pow2Of5()
    ensures Pow2(5) == 32
  {
  }

  /** `out` and the live bits of the register are the bits of the digits read so far. */
  ghost predicate Decoding(s: string, out: seq<byte>, buffer: nat, bits: nat) {
    && buffer < U16 && bits < 8
    && AllDigits(s)
    && ByteBits(out) + Bits(buffer, bits) == DigitBits(s)
  }

  lemma NothingRead(s: string)
    ensures Decoding(s[..0], [], 0, 0)
  {
  }

  method TakeDigit(ghost s: string, out: seq<byte>, buffer: nat, bits: nat, c: char)
    returns (out': seq<byte>, buffer': nat, bits': nat)
    requires Decoding(s, out, buffer, bits) && IsDigit(c)
    ensures Decoding(s + [c], out', buffer', bits')
  {
    Pow2Of5();
    hide Pow2, ByteBits, DigitBits, Bits;
    DigitBitsAppend(s, c);
    out', bits' := out, bits + 5;
    buffer' := Absorb(ByteBits(out), buffer, bits, DigitValue(c), 5);
    if bits' >= 8 {
      bits' := bits' - 8;
      out' := PushByte(out, buffer', bits');
    }
  }

  method DecodeLower(input: string) returns (r: Option<seq<byte>>)
    ensures r == Decode(input)
  {
    NothingRead(input);
    hide Decode, Decoding;
    var out: seq<byte> := [];
    var buffer: nat, bits: nat := 0, 0;
    for i := 0 to |input|
      invariant Decoding(input[..i], out, buffer, bits)
    {
      var c := input[i];
      if !IsDigit(c) {
        NoSpelling(input, i);
        return None;
      }
      assert input[..i + 1] == input[..i] + [c];
      out, buffer, bits := TakeDigit(input[..i], out, buffer, bits, c);
    }
    assert input[..|input|] == input;
    r := Finish(input, out, buffer, bits);
  }

  /** The bits left over must be fewer than a digit, and zero. */
  method Finish(ghost s: string, out: seq<byte>, buffer: nat, bits: nat) returns (r: Option<seq<byte>>)
    requires Decoding(s, out, buffer, bits)
    ensures r == Decode(s)
  {
    DecodeResult(s, out, buffer, bits);
    if bits >= 5 || And(buffer, Shl(1, bits, U16) - 1) != 0 {
      return None;
    }
    return Some(out);
  }

  lemma ShlOne(n: nat)
    requires n < 8
    ensures Shl(1, n, U16) == Pow2(n)
  {
    hide Pow2, Shl;
    Pow2Of16();
    ShlKeeps(1, n, 16);
    Pow2Step(16 - n);
    DivModUnique(1, Pow2(16 - n), 0, 1);
  }

  lemma PadIsZero(buffer: nat, bits: nat)
    ensures And(buffer, Pow2(bits) - 1) == 0 <==> Bits(buffer, bits) == Zeros(bits)
  {
    AndIsMod(buffer, bits);
    BitsMod(buffer, bits, bits);
    BitsZero(buffer % Pow2(bits), bits);
  }

  lemma DecodeEnd(s: string, out: seq<byte>, buffer: nat, bits: nat)
    requires AllDigits(s) && bits < 8
    requires ByteBits(out) + Bits(buffer, bits) == DigitBits(s)
    ensures Spells(s, out) <==> bits < 5 && Bits(buffer, bits) == Zeros(bits)
    ensures forall b :: Spells(s, b) ==> b == out
  {
    forall b | Spells(s, b)
      ensures b == out && bits < 5 && Bits(buffer, bits) == Zeros(bits)
    {
      var k: nat :| k < 5 && ByteBits(b) + Zeros(k) == DigitBits(s);
      SplitBytes(b, Zeros(k), out, Bits(buffer, bits));
    }
  }

  lemma DecodeResult(s: string, out: seq<byte>, buffer: nat, bits: nat)
    requires AllDigits(s) && bits < 8
    requires ByteBits(out) + Bits(buffer, bits) == DigitBits(s)
    ensures Shl(1, bits, U16) >= 1
    ensures Decode(s) == if bits >= 5 || And(buffer, Shl(1, bits, U16) - 1) != 0 then None else Some(out)
  {
    hide Spells, And, Shl, Bits, Pow2, ByteBits, DigitBits;
    ShlOne(bits);
    PadIsZero(buffer, bits);
    DecodeEnd(s, out, buffer, bits);
    DecodeIffSpells(s, out);
  }

  /** The byte above the `bits` bits still live leaves the register. */
  method PushByte(out: seq<byte>, buffer: nat, bits: nat) returns (r: seq<byte>)
    ensures ByteBits(r) + Bits(buffer, bits) == ByteBits(out) + Bits(buffer, 8 + bits)
  {
    var b := Shr(buffer, bits) % 256;
    BitsSplit(buffer, 8, bits);
    BitsMod(Shr(buffer, bits), 8, 8);
    assert Pow2(8) == 256;
    r := out + [b];
    assert r[..|out|] == out;
    Reassociate(ByteBits(out), Bits(b, 8), Bits(buffer, bits));
  }

  /** The digit above the `bits` bits still live leaves the register. */
  method PushDigit(out: string, buffer: nat, bits: nat) returns (r: string)
    requires AllDigits(out)
    ensures AllDigits(r)
    ensures DigitBits(r) + Bits(buffer, bits) == DigitBits(out) + Bits(buffer, 5 + bits)
  {
    assert Pow2(5) == 32;
    AndIsMod(Shr(buffer, bits), 5);
    var v := And(Shr(buffer, bits), 0x1f);
    BitsSplit(buffer, 5, bits);
    BitsMod(Shr(buffer, bits), 5, 5);
    r := out + [Digit(v)];
    assert r[..|out|] == out;
    Reassociate(DigitBits(out), Bits(v, 5), Bits(buffer, bits));
  }

  /** Emits digits until fewer than five live bits are left. */
  method Drain(out: string, buffer: nat, bits: nat) returns (out': string, bits': nat)
    requires AllDigits(out)
    ensures AllDigits(out') && bits' < 5
    ensures DigitBits(out') + Bits(buffer, bits') == DigitBits(out) + Bits(buffer, bits)
  {
    out', bits' := out, bits;
    while bits' >= 5
      invariant AllDigits(out')
      invariant DigitBits(out') + Bits(buffer, bits') == DigitBits(out) + Bits(buffer, bits)
    {
      bits' := bits' - 5;
      out' := PushDigit(out', buffer, bits');
    }
  }

  /** `out` and the live bits of the register are the bits of the bytes read so far. */
  ghost predicate Encoding(b: seq<byte>, out: string, buffer: nat, bits: nat) {
    && buffer < U16 && bits < 5
    && AllDigits(out)
    && DigitBits(out) + Bits(buffer, bits) == ByteBits(b)
  }

  lemma NothingTaken(b: seq<byte>)
    ensures Encoding(b[..0], "", 0, 0)
  {
  }

  method TakeByte(ghost b: seq<byte>, out: string, buffer: nat, bits: nat, x: byte)
    returns (out': string, buffer': nat, bits': nat)
    requires Encoding(b, out, buffer, bits)
    ensures Encoding(b + [x], out', buffer', bits')
  {
    Pow2Of8();
    hide Pow2, ByteBits, DigitBits, Bits;
    ByteBitsAppend(b, x);
    buffer' := Absorb(DigitBits(out), buffer, bits, x, 8);
    out', bits' := Drain(out, buffer', bits + 8);
  }

  method EncodeLower(input: seq<byte>) returns (out: string)
    ensures out == Encode(input)
  {
    NothingTaken(input);
    hide Encode, Encoding;
    out := "";
    var buffer: nat, bits: nat := 0, 0;
    for i := 0 to |input|
      invariant Encoding(input[..i], out, buffer, bits)
    {
      assert input[..i + 1] == input[..i] + [input[i]];
      out, buffer, bits := TakeByte(input[..i], out, buffer, bits, input[i]);
    }
    assert input[..|input|] == input;
    out := Pad(input, out, buffer, bits);
  }

  /** The bits left over, if any, are filled up with zeros to a last digit. */
  method Pad(ghost input: seq<byte>, out: string, buffer: nat, bits: nat) returns (out': string)
    requires Encoding(input, out, buffer, bits)
    ensures out' == Encode(input)
  {
    hide Encode, Pow2, ByteBits, DigitBits, Bits;
    out' := out;
    if bits > 0 {
      LastDigit(DigitBits(out), buffer, bits);
      out' := PushDigit(out, Shl(buffer, 5 - bits, U16), 0);
      NoBits(Shl(buffer, 5 - bits, U16), DigitBits(out'));
      Encoded(input, out', 5 - bits);
    } else {
      NoBits(buffer, DigitBits(out));
      NoBits(buffer, ByteBits(input));
      Encoded(input, out, 0);
    }
  }

  lemma NoBits(buffer: nat, done: seq<bool>)
    ensures done + Bits(buffer, 0) == done == done + Zeros(0)
  {
  }

  /** Bits that come to those of the input with less than a digit of zeros make the one spelling. */
  lemma Encoded(input: seq<byte>, out: string, k: nat)
    requires k < 5 && AllDigits(out) && ByteBits(input) + Zeros(k) == DigitBits(out)
    ensures out == Encode(input)
  {
    EncodeIffSpells(out, input);
  }

  lemma LastDigit(done: seq<bool>, buffer: nat, bits: nat)
    requires 0 < bits < 5
    ensures done + Bits(Shl(buffer, 5 - bits, U16), 5) == done + Bits(buffer, bits) + Zeros(5 - bits)
  {
    ShiftIn(buffer, bits, 0, 5 - bits);
    OrZero(Shl(buffer, 5 - bits, U16));
    BitsZero(0, 5 - bits);
    Reassociate(done, Bits(buffer, bits), Zeros(5 - bits));
  }
}
