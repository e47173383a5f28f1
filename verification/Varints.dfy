/**
 Unsigned LEB128, as multiformats and Protocol Buffers write integers: seven
 bits a byte, least significant group first, the top bit set on every byte but
 the last.
 */
module Varints {
  import opened Wrappers
  import opened MachineInt

  datatype Varint = Varint(value: nat, size: nat)

  /** The number at the front of `s`, if it ends within `limit` bytes, and how many bytes it took. */
  function ReadVarint(s: seq<byte>, limit: nat): (r: Option<Varint>)
    ensures r.Some? ==> 1 <= r.value.size <= |s| && r.value.size <= limit
  {
    if limit == 0 || s == [] then None
    else if s[0] < 128 then Some(Varint(s[0], 1))
    else
      match ReadVarint(s[1..], limit - 1)
      case None => None
      case Some(v) => Some(Varint(s[0] - 128 + 128 * v.value, v.size + 1))
  }

  /** What `ReadVarint` makes of its input once `index` bytes worth `value` lie behind it. */
  function Resume(r: Option<Varint>, value: nat, index: nat): Option<Varint> {
    match r
    case None => None
    case Some(v) => Some(Varint(v.value * Pow2(7 * index) + value, v.size + index))
  }

  /** The value once the seven bits of `b` are put in front of those already read. */
  function Extended(b: byte, value: nat, index: nat): nat {
    (b % 128) * Pow2(7 * index) + value
  }

  lemma Pow2Of7()
    ensures Pow2(7) == 128
  {
  }

  /** `value |= (byte & 0x7f) << (7 * index)` adds the next group, modulo the 64-bit word. */
  lemma AddGroup(value: nat, index: nat, b: byte)
    requires index <= 9 && value < Pow2(7 * index)
    ensures Or(value, Shl(And(b, 0x7f), 7 * index, U64)) == Extended(b, value, index) % U64
  {
    assert Pow2(7) == 128;
    AndIsMod(b, 7);
    Pow2Of64();
    OrCommutes(value, Shl(b % 128, 7 * index, U64));
    ShiftOr(b % 128, 7 * index, 64, value);
  }

  lemma GroupFits(value: nat, index: nat, b: byte)
    requires value < Pow2(7 * index)
    ensures Extended(b, value, index) < Pow2(7 * index + 7)
  {
    Pow2Add(7 * index, 7);
    assert Pow2(7) == 128;
    FitsBelow(b % 128, Pow2(7 * index), value);
  }

  lemma FitsBelow(g: nat, p: nat, value: nat)
    requires g < 128 && value < p
    ensures g * p + value < p * 128
  {
    assert g * p <= 127 * p;
  }

  lemma WholeGroup(value: nat, index: nat, b: byte)
    requires index < 9 && value < Pow2(7 * index)
    ensures Extended(b, value, index) % U64 == Extended(b, value, index)
  {
    GroupFits(value, index, b);
    WithinWord(7 * index + 7);
  }

  lemma WithinWord(n: nat)
    requires n <= 64
    ensures Pow2(n) <= U64
  {
    hide Pow2;
    Pow2Of64();
    Pow2Add(n, 64 - n);
    MulMonotone(1, Pow2(64 - n), Pow2(n));
  }

  lemma ResumeNothing(r: Option<Varint>)
    ensures Resume(r, 0, 0) == r && Pow2(0) == 1
  {
  }

  lemma ResumeNone(value: nat, index: nat)
    ensures Resume(None, value, index) == None
  {
  }

  lemma ResumeGroup(s: seq<byte>, limit: nat, value: nat, index: nat)
    requires s != [] && limit > 0
    ensures s[0] < 128 ==>
      Resume(ReadVarint(s, limit), value, index) == Some(Varint(Extended(s[0], value, index), index + 1))
    ensures s[0] >= 128 ==>
      Resume(ReadVarint(s, limit), value, index) ==
      Resume(ReadVarint(s[1..], limit - 1), Extended(s[0], value, index), index + 1)
  {
    if s[0] >= 128 && ReadVarint(s[1..], limit - 1).Some? {
      Regroup(s[0], ReadVarint(s[1..], limit - 1).value.value, value, index);
    }
  }

  lemma Regroup(b: byte, v: nat, value: nat, index: nat)
    requires b >= 128
    ensures (b - 128 + 128 * v) * Pow2(7 * index) + value == v * Pow2(7 * (index + 1)) + Extended(b, value, index)
  {
    Pow2Of7();
    hide Pow2;
    Pow2Add(7 * index, 7);
    var p := Pow2(7 * index);
    MulAdds(b - 128, v * 128, p);
    MulAssoc(v, 128, p);
    assert b % 128 == b - 128;
  }

  /** One turn of the reader: folds the first byte of `rest` into the accumulator. */
  method TakeGroup(b: byte, value: nat, index: nat) returns (r: nat)
    requires index <= 9 && value < Pow2(7 * index)
    ensures r == Extended(b, value, index) % U64
    ensures index < 9 ==> r == Extended(b, value, index) < Pow2(7 * index + 7)
  {
    AddGroup(value, index, b);
    r := Or(value, Shl(And(b, 0x7f), 7 * index, U64));
    GroupFits(value, index, b);
    if index < 9 {
      WholeGroup(value, index, b);
    }
  }

  /** The reader loop: at most `limit` bytes (nine for a CID, ten for a block), in a 64-bit accumulator. */
  method Read(cursor: seq<byte>, limit: nat) returns (r: Option<(nat, seq<byte>)>)
    requires limit <= 10
    ensures r == match ReadVarint(cursor, limit)
                 case None => None
                 case Some(v) => Some((v.value % U64, cursor[v.size..]))
  {
    ResumeNothing(ReadVarint(cursor, limit));
    hide Extended, Resume, Pow2;
    var value: nat, rest := 0, cursor;
    for index := 0 to limit
      invariant index <= |cursor| && rest == cursor[index..]
      invariant index < 10 ==> value < Pow2(7 * index)
      invariant index < 10 ==> ReadVarint(cursor, limit) == Resume(ReadVarint(rest, limit - index), value, index)
      invariant index == 10 ==> ReadVarint(cursor, limit).None?
    {
      if rest == [] {
        ResumeNone(value, index);
        return None;
      }
      var b := rest[0];
      ResumeGroup(rest, limit - index, value, index);
      ResumeNone(Extended(b, value, index), index + 1);
      value := TakeGroup(b, value, index);
      rest := rest[1..];
      var last := IsLast(b);
      if last {
        return Some((value, rest));
      }
    }
    ResumeNone(value, limit);
    return None;
  }

  method IsLast(b: byte) returns (r: bool)
    ensures r <==> b < 128
  {
    AndTop(b, 7);
    assert Pow2(7) == 128;
    r := And(b, 0x80) == 0;
  }

  lemma {:induction false} AndTop(x: nat, n: nat)
    requires x < 2 * Pow2(n)
    ensures And(x, Pow2(n)) == 0 <==> x < Pow2(n)
  {
    if n > 0 && x > 0 {
      AndTop(x / 2, n - 1);
    }
  }

  // ---- Facts the parsers use ----

  /** Reading looks no further than the bytes it consumes. */
  lemma {:induction false} ReadVarintStable(s: seq<byte>, t: seq<byte>, limit: nat)
    requires ReadVarint(s, limit).Some?
    ensures ReadVarint(s[..ReadVarint(s, limit).value.size] + t, limit) == ReadVarint(s, limit)
  {
    if s[0] >= 128 {
      var n := ReadVarint(s, limit).value.size;
      ReadVarintStable(s[1..], t, limit - 1);
      assert (s[..n] + t)[1..] == s[1..][..n - 1] + t;
    }
  }

  /** Each byte read contributes seven bits. */
  lemma {:induction false} VarintBound(s: seq<byte>, limit: nat)
    requires ReadVarint(s, limit).Some?
    ensures ReadVarint(s, limit).value.value < Pow2(7 * limit)
  {
    Pow2Of7();
    Pow2Add(7, 7 * (limit - 1));
    hide Pow2;
    if s[0] >= 128 {
      VarintBound(s[1..], limit - 1);
    }
  }

  // ---- What a varint is, apart from how it is read ----

  /** Every byte but the last carries on. */
  predicate IsVarint(s: seq<byte>) {
    s != [] && s[|s| - 1] < 128 && forall i :: 0 <= i < |s| - 1 ==> s[i] >= 128
  }

  /** Seven bits a byte, least significant group first. */
  function GroupValue(s: seq<byte>): nat {
    if s == [] then 0 else s[0] % 128 + 128 * GroupValue(s[1..])
  }

  /** Exactly the varints of at most `limit` bytes are read off the front, as what they are worth. */
  lemma {:induction false} ReadVarintIff(s: seq<byte>, limit: nat, v: Varint)
    ensures ReadVarint(s, limit) == Some(v) <==>
      && 1 <= v.size <= |s| && v.size <= limit
      && IsVarint(s[..v.size])
      && GroupValue(s[..v.size]) == v.value
  {
    if limit == 0 || s == [] {
    } else if s[0] < 128 {
      assert s[..1][1..] == [];
      if 1 < v.size <= |s| {
        assert s[..v.size][0] < 128;
      }
    } else {
      CarryOn(s, limit, v);
      var rest := ReadVarint(s[1..], limit - 1);
      if rest.Some? {
        ReadVarintIff(s[1..], limit - 1, rest.value);
      }
      if 1 < v.size <= |s| {
        ReadVarintIff(s[1..], limit - 1, Varint(GroupValue(s[1..v.size]), v.size - 1));
        assert s[1..][..v.size - 1] == s[1..v.size];
        VarintTail(s[..v.size]);
        assert s[..v.size][1..] == s[1..v.size];
      }
    }
  }

  /** A byte that carries on is worth its seven bits plus what follows, a group up. */
  lemma CarryOn(s: seq<byte>, limit: nat, v: Varint)
    requires limit > 0 && s != [] && s[0] >= 128
    ensures ReadVarint(s, limit) == Some(v) <==>
      && v.size > 1
      && exists w: nat :: ReadVarint(s[1..], limit - 1) == Some(Varint(w, v.size - 1)) &&
                          v.value == s[0] - 128 + 128 * w
  {
    var rest := ReadVarint(s[1..], limit - 1);
    if rest.Some? && ReadVarint(s, limit) == Some(v) {
      assert rest == Some(Varint(rest.value.value, v.size - 1));
    }
  }

  lemma VarintTail(s: seq<byte>)
    requires |s| > 1 && s[0] >= 128
    ensures IsVarint(s) <==> IsVarint(s[1..])
    ensures GroupValue(s) == s[0] - 128 + 128 * GroupValue(s[1..])
  {
    hide GroupValue;
    var rest := s[1..];
    assert forall i :: 0 < i < |s| ==> s[i] == rest[i - 1];
    assert forall i :: 0 <= i < |rest| ==> rest[i] == s[i + 1];
    GroupTail(s);
  }

  lemma GroupTail(s: seq<byte>)
    requires s != [] && s[0] >= 128
    ensures GroupValue(s) == s[0] - 128 + 128 * GroupValue(s[1..])
  {
    assert s[0] % 128 == s[0] - 128;
  }

  /** The shortest varint worth `n`. */
  function WriteVarint(n: nat): (s: seq<byte>)
    ensures IsVarint(s)
  {
    if n < 128 then [n] else [128 + n % 128] + WriteVarint(n / 128)
  }

  lemma {:induction false} WrittenValue(n: nat)
    ensures GroupValue(WriteVarint(n)) == n
  {
    if n < 128 {
      assert [n][1..] == [];
    } else {
      WrittenValue(n / 128);
      VarintTail(WriteVarint(n));
      assert WriteVarint(n)[1..] == WriteVarint(n / 128);
    }
  }

  lemma {:induction false} WrittenSize(n: nat, limit: nat)
    requires limit > 0 && n < Pow2(7 * limit)
    ensures |WriteVarint(n)| <= limit
  {
    if n >= 128 {
      Pow2Of7();
      Pow2Add(7, 7 * (limit - 1));
      hide Pow2;
      assert 7 + 7 * (limit - 1) == 7 * limit;
      if limit == 1 {
        ResumeNothing(None);
      } else {
        WrittenSize(n / 128, limit - 1);
      }
    }
  }

  /** A 64-bit number takes ten bytes at most. */
  lemma WordFitsTen(n: nat)
    requires n < U64
    ensures |WriteVarint(n)| <= 10
  {
    Pow2Of64();
    Pow2Add(64, 6);
    hide Pow2;
    MulMonotone(1, Pow2(6), Pow2(64));
    WrittenSize(n, 10);
  }

  /** What was written is read back, whatever follows it. */
  lemma ReadWritten(n: nat, t: seq<byte>, limit: nat)
    requires |WriteVarint(n)| <= limit
    ensures ReadVarint(WriteVarint(n) + t, limit) == Some(Varint(n, |WriteVarint(n)|))
  {
    hide ReadVarint, GroupValue;
    WrittenValue(n);
    var s := WriteVarint(n) + t;
    assert s[..|WriteVarint(n)|] == WriteVarint(n);
    ReadVarintIff(s, limit, Varint(n, |WriteVarint(n)|));
  }
}
