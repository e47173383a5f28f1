/**
 CIDv1 identifiers in their one accepted form: multibase `b`, base32 lower
 case, version 1, codec raw or dag-pb, sha2-256, a 32-byte digest. A `Cid` is
 its text, and parsing is the only way to obtain one, so every identifier in
 circulation satisfies `IsCid`; the accessors are total and give nothing
 meaningful for any other text.
 */
module Cids {
  import opened Wrappers
  import opened MachineInt
  import opened Varints
  import Base32

  const MULTIBASE_BASE32_LOWER := 'b'
  const CODEC_RAW := 0x55
  const CODEC_DAG_PB := 0x70
  const HASH_SHA2_256 := 0x12
  const SHA2_256_LEN := 32
  const VARINT_BYTES := 9

  type Digest = d: seq<byte> | |d| == SHA2_256_LEN witness seq(SHA2_256_LEN, _ => 0)

  /** sha2-256, taken as an unknown function: nothing here depends on how it hashes. */
  type Hash = seq<byte> -> Digest

  // ---- The binary form: version | codec | hash code | digest length | digest ----

  datatype Prefixed = Prefixed(values: seq<nat>, size: nat)

  /** The first `n` varints of `b`, and how many bytes they took. */
  function ReadAll(b: seq<byte>, n: nat): (r: Option<Prefixed>)
    ensures r.Some? ==> |r.value.values| == n && n <= r.value.size <= |b|
  {
    if n == 0 then Some(Prefixed([], 0))
    else
      match ReadVarint(b, VARINT_BYTES)
      case None => None
      case Some(v) =>
        Continue(Prefixed([v.value], v.size), ReadAll(b[v.size..], n - 1))
  }

  /** The varints of `p`, then those of `r`. */
  function Continue(p: Prefixed, r: Option<Prefixed>): Option<Prefixed> {
    match r
    case None => None
    case Some(q) => Some(Prefixed(p.values + q.values, p.size + q.size))
  }

  lemma ContinueUnit(r: Option<Prefixed>)
    ensures Continue(Prefixed([], 0), r) == r
  {
    if r.Some? {
      assert [] + r.value.values == r.value.values;
    }
  }

  lemma ContinueDone(p: Prefixed)
    ensures Continue(p, Some(Prefixed([], 0))) == Some(p)
  {
    assert p.values + [] == p.values;
  }

  lemma ContinueNone(p: Prefixed)
    ensures Continue(p, None) == None
  {
  }

  lemma ContinueTwice(p: Prefixed, q: Prefixed, r: Option<Prefixed>)
    ensures Continue(p, Continue(q, r)) == Continue(Prefixed(p.values + q.values, p.size + q.size), r)
  {
    if r.Some? {
      assert p.values + (q.values + r.value.values) == p.values + q.values + r.value.values;
    }
  }

  predicate IsHeader(values: seq<nat>) {
    && |values| == 4
    && values[0] == 1
    && (values[1] == CODEC_RAW || values[1] == CODEC_DAG_PB)
    && values[2] == HASH_SHA2_256
    && values[3] == SHA2_256_LEN
  }

  predicate IsCidBinary(b: seq<byte>) {
    var p := ReadAll(b, 4);
    p.Some? && IsHeader(p.value.values) && |b| - p.value.size == SHA2_256_LEN
  }

  ghost predicate IsCidText(s: string) {
    && s != [] && s[0] == MULTIBASE_BASE32_LOWER
    && Base32.Decode(s[1..]).Some?
    && IsCidBinary(Base32.Decode(s[1..]).value)
  }

  datatype Cid = Cid(text: string)

  ghost predicate IsCid(c: Cid) {
    IsCidText(c.text)
  }

  function MinimalBinary(codec: byte, digest: Digest): (b: seq<byte>)
    requires codec == CODEC_RAW || codec == CODEC_DAG_PB
    ensures ReadAll(b, 4) == Some(Prefixed([1, codec, HASH_SHA2_256, SHA2_256_LEN], 4))
    ensures |b| == 36 && b[4..] == digest
  {
    var header: seq<byte> := [1, codec, HASH_SHA2_256, SHA2_256_LEN];
    ReadAllSmall(header, digest);
    assert (header + digest)[4..] == digest;
    header + digest
  }

  lemma {:induction false} ReadAllSmall(bs: seq<byte>, t: seq<byte>)
    requires forall i :: 0 <= i < |bs| ==> bs[i] < 128
    ensures ReadAll(bs + t, |bs|) == Some(Prefixed(bs, |bs|))
  {
    if bs != [] {
      ReadAllSmall(bs[1..], t);
      assert (bs + t)[1..] == bs[1..] + t;
      assert [bs[0]] + bs[1..] == bs;
    }
  }

  /** Reading `2 + n` varints is reading two and then `n`. */
  lemma ReadAllSplit(b: seq<byte>, n: nat)
    requires ReadAll(b, 2 + n).Some? || ReadAll(b, 2).Some?
    ensures ReadAll(b, 2).Some?
    ensures ReadAll(b, 2 + n) == Continue(ReadAll(b, 2).value, ReadAll(b[ReadAll(b, 2).value.size..], n))
  {
    hide ReadVarint;
    var v := ReadVarint(b, VARINT_BYTES).value;
    var c := b[v.size..];
    assert ReadAll(b, 2 + n) == Continue(Prefixed([v.value], v.size), ReadAll(c, 1 + n));
    var w := ReadVarint(c, VARINT_BYTES).value;
    var d := c[w.size..];
    assert ReadAll(c, 1 + n) == Continue(Prefixed([w.value], w.size), ReadAll(d, n));
    assert ReadAll(d, 0) == Some(Prefixed([], 0));
    assert ReadAll(c, 1) == Some(Prefixed([w.value], w.size)) by {
      assert [w.value] + [] == [w.value];
    }
    assert ReadAll(b, 2) == Some(Prefixed([v.value] + [w.value], v.size + w.size));
    assert d == b[v.size + w.size..];
    ContinueTwice(Prefixed([v.value], v.size), Prefixed([w.value], w.size), ReadAll(d, n));
  }

  /** Four varints take four bytes only when each is its own single byte. */
  lemma {:induction false} ReadAllMinimal(b: seq<byte>, n: nat)
    requires ReadAll(b, n).Some? && ReadAll(b, n).value.size == n
    ensures b[..n] == ReadAll(b, n).value.values
  {
    if n > 0 {
      ReadAllMinimal(b[1..], n - 1);
      assert b[..n] == [b[0]] + b[1..][..n - 1];
    }
  }

  /** Reading the varints looks no further than the bytes they take. */
  lemma {:induction false} ReadAllStable(b: seq<byte>, t: seq<byte>, n: nat)
    requires ReadAll(b, n).Some?
    ensures ReadAll(b[..ReadAll(b, n).value.size] + t, n) == ReadAll(b, n)
  {
    hide ReadVarint;
    if n > 0 {
      var v := ReadVarint(b, VARINT_BYTES).value;
      var k := ReadAll(b, n).value.size;
      var rest := b[v.size..];
      ReadVarintStable(b, b[v.size..k] + t, VARINT_BYTES);
      assert b[..k] + t == b[..v.size] + (b[v.size..k] + t);
      ReadAllStable(rest, t, n - 1);
      assert (b[..k] + t)[v.size..] == rest[..k - v.size] + t;
    }
  }

  // ---- Accessors of a parsed identifier ----

  ghost function ToBinary(c: Cid): seq<byte> {
    if c.text == [] then []
    else
      match Base32.Decode(c.text[1..])
      case None => []
      case Some(b) => b
  }

  ghost function HeaderOf(c: Cid): (p: Prefixed)
    ensures p.size <= |ToBinary(c)|
  {
    match ReadAll(ToBinary(c), 4)
    case None => Prefixed([], 0)
    case Some(p) => p
  }

  ghost function Codec(c: Cid): nat {
    var values := HeaderOf(c).values;
    if |values| == 4 then values[1] else 0
  }

  ghost predicate IsVerifiable(c: Cid) {
    Codec(c) == CODEC_RAW
  }

  /** Everything after the header. */
  ghost function DigestOf(c: Cid): seq<byte> {
    ToBinary(c)[HeaderOf(c).size..]
  }

  /** Everything but the last 32 bytes. */
  ghost function Prefix(c: Cid): seq<byte> {
    var b := ToBinary(c);
    if |b| < SHA2_256_LEN then [] else b[..|b| - SHA2_256_LEN]
  }

  /** Hash code, length and digest: what follows the version and the codec. */
  ghost function Multihash(c: Cid): seq<byte> {
    var b := ToBinary(c);
    match ReadAll(b, 2)
    case None => []
    case Some(p) => b[p.size..]
  }

  ghost function FromBinary(b: seq<byte>): (r: Option<Cid>)
    ensures r.Some? ==> IsCid(r.value)
  {
    var c := Cid([MULTIBASE_BASE32_LOWER] + Base32.Encode(b));
    if IsCid(c) then Some(c) else None
  }

  ghost predicate Matches(sha: Hash, c: Cid, content: seq<byte>) {
    DigestOf(c) == sha(content)
  }

  lemma CidBinary(c: Cid)
    requires IsCid(c)
    ensures IsCidBinary(ToBinary(c))
    ensures Codec(c) == CODEC_RAW || Codec(c) == CODEC_DAG_PB
    ensures |DigestOf(c)| == SHA2_256_LEN
    ensures |Prefix(c)| == HeaderOf(c).size
  {
  }

  /** The text can stand in a gateway path: lower-case letters and the digits 2 to 7, nothing else. */
  lemma TextIsUrlSafe(c: Cid)
    requires IsCid(c)
    ensures forall i :: 0 <= i < |c.text| ==> 'a' <= c.text[i] <= 'z' || '2' <= c.text[i] <= '7'
    ensures c.text != [] && c.text[0] == 'b'
  {
    assert Base32.AllDigits(c.text[1..]);
    forall i | 0 < i < |c.text|
      ensures Base32.IsDigit(c.text[i])
    {
      assert c.text[i] == c.text[1..][i - 1];
    }
  }

  // ---- Text and binary are two spellings of one identifier ----

  /** Exactly the binary CIDs are accepted, and the text they get decodes back to them. */
  lemma FromBinaryAccepts(b: seq<byte>)
    ensures FromBinary(b).Some? <==> IsCidBinary(b)
    ensures FromBinary(b).Some? ==> ToBinary(FromBinary(b).value) == b
  {
    Base32.DecodeOfEncode(b);
    assert ([MULTIBASE_BASE32_LOWER] + Base32.Encode(b))[1..] == Base32.Encode(b);
  }

  lemma BinaryRoundTrip(c: Cid)
    requires IsCid(c)
    ensures FromBinary(ToBinary(c)) == Some(c)
  {
    hide Base32.Encode, Base32.Decode, IsCidBinary;
    Base32.EncodeOfDecode(c.text[1..]);
    assert [MULTIBASE_BASE32_LOWER] + c.text[1..] == c.text;
  }

  lemma ToBinaryInjective(c: Cid, d: Cid)
    requires IsCid(c) && IsCid(d) && ToBinary(c) == ToBinary(d)
    ensures c == d
  {
    BinaryRoundTrip(c);
    BinaryRoundTrip(d);
  }

  lemma BinaryIsPrefixThenDigest(c: Cid)
    requires IsCid(c)
    ensures ToBinary(c) == Prefix(c) + DigestOf(c)
    ensures |Prefix(c)| >= 4
  {
    CidBinary(c);
  }

  /** The header alone decides acceptance and codec; the digest is whatever follows it. */
  lemma Rehash(c: Cid, digest: Digest)
    requires IsCid(c)
    ensures FromBinary(Prefix(c) + digest).Some?
    ensures var d := FromBinary(Prefix(c) + digest).value;
            Prefix(d) == Prefix(c) && DigestOf(d) == digest && Codec(d) == Codec(c)
  {
    hide ReadAll;
    CidBinary(c);
    RehashBinary(ToBinary(c), digest);
    FromBinaryAccepts(Prefix(c) + digest);
  }

  lemma RehashBinary(b: seq<byte>, digest: Digest)
    requires IsCidBinary(b)
    ensures var h := b[..|b| - SHA2_256_LEN];
            ReadAll(h + digest, 4) == ReadAll(b, 4) && (h + digest)[|h|..] == digest && (h + digest)[..|h|] == h
  {
    ReadAllStable(b, digest, 4);
  }

  /** Rebuilding a block's identifier from its prefix and its bytes gives `c` just when `c` names them. */
  lemma Readdress(sha: Hash, c: Cid, content: seq<byte>)
    requires IsCid(c)
    ensures FromBinary(Prefix(c) + sha(content)).Some?
    ensures FromBinary(Prefix(c) + sha(content)) == Some(c) <==> Matches(sha, c, content)
    ensures Matches(sha, FromBinary(Prefix(c) + sha(content)).value, content)
  {
    Rehash(c, sha(content));
    BinaryIsPrefixThenDigest(c);
    BinaryRoundTrip(c);
  }

  // ---- When equal content means an equal identifier ----

  ghost predicate MinimalHeader(c: Cid) {
    |ToBinary(c)| == 36
  }

  lemma MinimalHeaderBytes(c: Cid)
    requires IsCid(c) && MinimalHeader(c)
    ensures Prefix(c) == [1, Codec(c), HASH_SHA2_256, SHA2_256_LEN]
  {
    ReadAllMinimal(ToBinary(c), 4);
  }

  /** Same codec and digest: equal exactly when spelled with the same header bytes. */
  lemma EqualIffSameHeader(c: Cid, d: Cid)
    requires IsCid(c) && IsCid(d)
    requires Codec(c) == Codec(d) && DigestOf(c) == DigestOf(d)
    ensures c == d <==> Prefix(c) == Prefix(d)
  {
    BinaryIsPrefixThenDigest(c);
    BinaryIsPrefixThenDigest(d);
    if Prefix(c) == Prefix(d) {
      ToBinaryInjective(c, d);
    }
  }

  /** So beside a minimal identifier the one other spellings of its content differ in is that they are not minimal. */
  lemma EqualIffMinimal(c: Cid, d: Cid)
    requires IsCid(c) && IsCid(d) && MinimalHeader(c)
    requires Codec(c) == Codec(d) && DigestOf(c) == DigestOf(d)
    ensures c == d <==> MinimalHeader(d)
  {
    MinimalHeaderBytes(c);
    if MinimalHeader(d) {
      MinimalHeaderBytes(d);
      EqualIffSameHeader(c, d);
    }
  }

  /** Among minimal headers, an identifier is its codec and its digest. */
  lemma MinimalCidsAreCanonical(c: Cid, d: Cid)
    requires IsCid(c) && IsCid(d)
    requires MinimalHeader(c) && MinimalHeader(d)
    ensures c == d <==> Codec(c) == Codec(d) && DigestOf(c) == DigestOf(d)
  {
    MinimalHeaderBytes(c);
    MinimalHeaderBytes(d);
    if Codec(c) == Codec(d) && DigestOf(c) == DigestOf(d) {
      EqualIffSameHeader(c, d);
    }
  }

  /** The raw header with its version spelled in two bytes. */
  function OverlongBinary(digest: Digest): (b: seq<byte>)
    ensures ReadAll(b, 4) == Some(Prefixed([1, CODEC_RAW, HASH_SHA2_256, SHA2_256_LEN], 5))
    ensures |b| == 37 && b[5..] == digest
  {
    OverlongReads(digest);
    [0x81, 0x00, CODEC_RAW, HASH_SHA2_256, SHA2_256_LEN] + digest
  }

  lemma OverlongReads(digest: Digest)
    ensures var b := [0x81, 0x00, CODEC_RAW, HASH_SHA2_256, SHA2_256_LEN] + digest;
            b[5..] == digest && ReadAll(b, 4) == Some(Prefixed([1, CODEC_RAW, HASH_SHA2_256, SHA2_256_LEN], 5))
  {
    var tail: seq<byte> := [CODEC_RAW, HASH_SHA2_256, SHA2_256_LEN];
    var b: seq<byte> := [0x81, 0x00, CODEC_RAW, HASH_SHA2_256, SHA2_256_LEN] + digest;
    OverlongOne(b);
    ReadAllSmall(tail, digest);
    hide ReadVarint;
    assert b[2..] == tail + digest;
    assert ReadAll(b, 4) == Continue(Prefixed([1], 2), ReadAll(b[2..], 3));
    assert [1] + tail == [1, CODEC_RAW, HASH_SHA2_256, SHA2_256_LEN];
  }

  lemma OverlongOne(b: seq<byte>)
    requires |b| >= 2 && b[0] == 0x81 && b[1] == 0x00
    ensures ReadVarint(b, VARINT_BYTES) == Some(Varint(1, 2))
  {
    assert b[1..][0] == 0;
  }

  /** Beyond them it is not: the reader takes overlong varints, so every digest has a second raw spelling. */
  lemma OverlongHeaderIsASecondSpelling(digest: Digest) returns (c: Cid, d: Cid)
    ensures IsCid(c) && IsCid(d) && c != d
    ensures Codec(c) == Codec(d) == CODEC_RAW
    ensures DigestOf(c) == DigestOf(d) == digest
    ensures MinimalHeader(c) && !MinimalHeader(d)
  {
    var short, long := MinimalBinary(CODEC_RAW, digest), OverlongBinary(digest);
    FromBinaryAccepts(short);
    FromBinaryAccepts(long);
    c, d := FromBinary(short).value, FromBinary(long).value;
  }

  // ---- One provider key whichever codec names the bytes ----

  predicate IsMultihash(m: seq<byte>) {
    var p := ReadAll(m, 2);
    p.Some? && p.value.values == [HASH_SHA2_256, SHA2_256_LEN] && |m| - p.value.size == SHA2_256_LEN
  }

  lemma MultihashOfBinary(b: seq<byte>)
    requires IsCidBinary(b)
    ensures ReadAll(b, 2).Some?
    ensures var m := b[ReadAll(b, 2).value.size..];
            IsMultihash(m) && m[ReadAll(m, 2).value.size..] == b[ReadAll(b, 4).value.size..]
  {
    ReadAllSplit(b, 2);
    var p := ReadAll(b, 2).value;
    var m := b[p.size..];
    var q := ReadAll(m, 2).value;
    assert (p.values + q.values)[2..] == q.values;
    assert q.values == [HASH_SHA2_256, SHA2_256_LEN];
  }

  lemma BinaryOfMultihash(m: seq<byte>, codec: byte)
    requires IsMultihash(m) && (codec == CODEC_RAW || codec == CODEC_DAG_PB)
    ensures var b := [1, codec] + m;
            && ReadAll(b, 2) == Some(Prefixed([1, codec], 2)) && b[2..] == m
            && IsCidBinary(b) && ReadAll(b, 4).value.values[1] == codec
            && b[ReadAll(b, 4).value.size..] == m[ReadAll(m, 2).value.size..]
  {
    var b := [1, codec] + m;
    ReadAllSmall([1, codec], m);
    assert b[2..] == m;
    ReadAllSplit(b, 2);
    assert [1, codec] + [HASH_SHA2_256, SHA2_256_LEN] == [1, codec, HASH_SHA2_256, SHA2_256_LEN];
  }

  /** Putting either codec before a multihash gives a CID with that same multihash and digest. */
  lemma OneMultihashForBothCodecs(c: Cid, codec: byte)
    requires IsCid(c) && (codec == CODEC_RAW || codec == CODEC_DAG_PB)
    ensures FromBinary([1, codec] + Multihash(c)).Some?
    ensures var d := FromBinary([1, codec] + Multihash(c)).value;
            Codec(d) == codec && Multihash(d) == Multihash(c) && DigestOf(d) == DigestOf(c)
  {
    CidBinary(c);
    MultihashOfBinary(ToBinary(c));
    BinaryOfMultihash(Multihash(c), codec);
    FromBinaryAccepts([1, codec] + Multihash(c));
  }

  // ---- The cursor-driven readers ----

  method ReadOne(cursor: seq<byte>) returns (r: Option<(nat, seq<byte>)>)
    ensures r == match ReadVarint(cursor, VARINT_BYTES)
                 case None => None
                 case Some(v) => Some((v.value, cursor[v.size..]))
  {
    if ReadVarint(cursor, VARINT_BYTES).Some? {
      assert ReadVarint(cursor, VARINT_BYTES).value.value < U64 by {
        VarintBound(cursor, VARINT_BYTES);
        WithinWord(63);
      }
    }
    r := Read(cursor, VARINT_BYTES);
  }

  /** Reads `n` varints off the front of `b`, one after another. */
  method ReadValues(b: seq<byte>, n: nat) returns (r: Option<(seq<nat>, seq<byte>)>)
    ensures r == match ReadAll(b, n)
                 case None => None
                 case Some(p) => Some((p.values, b[p.size..]))
  {
    hide ReadVarint, Continue;
    var cursor, values: seq<nat> := b, [];
    ghost var used: nat := 0;
    ContinueUnit(ReadAll(b, n));
    for i := 0 to n
      invariant used <= |b| && cursor == b[used..]
      invariant ReadAll(b, n) == Continue(Prefixed(values, used), ReadAll(cursor, n - i))
    {
      ghost var v := ReadVarint(cursor, VARINT_BYTES);
      var one := ReadOne(cursor);
      if one.None? {
        ContinueNone(Prefixed(values, used));
        return None;
      }
      ContinueTwice(Prefixed(values, used), Prefixed([v.value.value], v.value.size), ReadAll(one.value.1, n - i - 1));
      used := used + v.value.size;
      values := values + [one.value.0];
      cursor := one.value.1;
    }
    ContinueDone(Prefixed(values, used));
    return Some((values, cursor));
  }

  /** The one door into the type. */
  method Parse(input: string) returns (r: Option<Cid>)
    ensures r == if IsCidText(input) then Some(Cid(input)) else None
  {
    if input == [] || input[0] != MULTIBASE_BASE32_LOWER {
      return None;
    }
    var bytes := Base32.DecodeLower(input[1..]);
    if bytes.None? {
      return None;
    }
    var header := ReadValues(bytes.value, 4);
    if header.None? || !IsHeader(header.value.0) || |header.value.1| != SHA2_256_LEN {
      return None;
    }
    return Some(Cid(input));
  }

  method Binary(c: Cid) returns (b: seq<byte>)
    ensures b == ToBinary(c)
  {
    if c.text == [] {
      return [];
    }
    var bytes := Base32.DecodeLower(c.text[1..]);
    return if bytes.Some? then bytes.value else [];
  }

  method Verifiable(c: Cid) returns (r: bool)
    ensures r <==> IsVerifiable(c)
  {
    var b := Binary(c);
    var header := ReadValues(b, 4);
    return header.Some? && header.value.0[1] == CODEC_RAW;
  }

  method Digest256(c: Cid) returns (d: seq<byte>)
    ensures d == DigestOf(c)
  {
    var b := Binary(c);
    var header := ReadValues(b, 4);
    return if header.Some? then header.value.1 else b;
  }

  method MatchesContent(sha: Hash, c: Cid, content: seq<byte>) returns (r: bool)
    ensures r <==> Matches(sha, c, content)
  {
    var d := Digest256(c);
    return d == sha(content);
  }

  /** Binary input goes through the same door: it is spelled out and parsed. */
  method ParseBinary(b: seq<byte>) returns (r: Option<Cid>)
    ensures r == FromBinary(b)
  {
    var spelling := Base32.EncodeLower(b);
    r := Parse([MULTIBASE_BASE32_LOWER] + spelling);
  }
}
