/**
 The links of a dag-pb node (Protocol Buffers wire encoding,
 `PBNode { Data = 1; repeated PBLink Links = 2 }`, `PBLink { Hash = 1; ... }`).
 The specification splits a block into its fields first and reads the links
 off them afterwards; the parser does both in one pass with a moving cursor.
 */
module DagPb {
  import opened Wrappers
  import opened MachineInt
  import opened Varints
  import opened Cids

  const MAX_LINKS_PER_NODE := 1024
  const PB_VARINT_BYTES := 10

  // ---- A block as a list of fields ----

  datatype Field = Field(number: nat, wire: nat, payload: seq<byte>)

  datatype Taken = Taken(payload: seq<byte>, rest: seq<byte>)

  function TakeVarint(s: seq<byte>): (r: Option<Taken>)
    ensures r.Some? ==> r.value.payload + r.value.rest == s && |r.value.rest| < |s|
  {
    match ReadVarint(s, PB_VARINT_BYTES)
    case None => None
    case Some(v) => Some(Taken(s[..v.size], s[v.size..]))
  }

  function TakeFixed(s: seq<byte>, count: nat): (r: Option<Taken>)
    ensures r.Some? ==> r.value.payload + r.value.rest == s
  {
    if |s| < count then None else Some(Taken(s[..count], s[count..]))
  }

  function TakeDelimited(s: seq<byte>): (r: Option<Taken>)
    ensures r.Some? ==> |r.value.payload| + |r.value.rest| < |s|
  {
    match ReadVarint(s, PB_VARINT_BYTES)
    case None => None
    case Some(v) => TakeFixed(s[v.size..], v.value % U64)
  }

  /** What follows a tag of this wire type; group markers and unknown types have no length to skip past. */
  function TakeBody(wire: nat, s: seq<byte>): (r: Option<Taken>)
    ensures r.Some? ==> |r.value.rest| <= |s|
  {
    match wire
    case 0 => TakeVarint(s)
    case 1 => TakeFixed(s, 8)
    case 2 => TakeDelimited(s)
    case 5 => TakeFixed(s, 4)
    case _ => None
  }

  function Fields(s: seq<byte>): Option<seq<Field>>
    decreases |s|
  {
    if s == [] then Some([])
    else
      match ReadVarint(s, PB_VARINT_BYTES)
      case None => None
      case Some(tag) =>
        var key := tag.value % U64;
        match TakeBody(key % 8, s[tag.size..])
        case None => None
        case Some(body) =>
          Prepend(Field(key / 8, key % 8, body.payload), Fields(body.rest))
  }

  /** The field `f` put in front of whatever `r` parsed to. */
  function Prepend(f: Field, r: Option<seq<Field>>): Option<seq<Field>> {
    match r
    case None => None
    case Some(fs) => Some([f] + fs)
  }

  // ---- The links among the fields ----

  predicate IsBytes(f: Field, number: nat) {
    f.number == number && f.wire == 2
  }

  /** The last `Hash` field, all of which must be CIDs this protocol accepts. */
  ghost function LastHash(fs: seq<Field>, hash: Option<Cid>): Option<Cid> {
    if fs == [] then hash
    else if !IsBytes(fs[0], 1) then LastHash(fs[1..], hash)
    else
      match FromBinary(fs[0].payload)
      case None => None
      case Some(c) => LastHash(fs[1..], Some(c))
  }

  ghost function LinkHash(link: seq<byte>): Option<Cid> {
    match Fields(link)
    case None => None
    case Some(fs) => LastHash(fs, None)
  }

  ghost function Collect(fs: seq<Field>, links: seq<Cid>): Option<seq<Cid>> {
    if fs == [] then Some(links)
    else if !IsBytes(fs[0], 2) then Collect(fs[1..], links)
    else if |links| == MAX_LINKS_PER_NODE then None
    else
      match LinkHash(fs[0].payload)
      case None => None
      case Some(c) => Collect(fs[1..], links + [c])
  }

  ghost function LinksFrom(s: seq<byte>, links: seq<Cid>): Option<seq<Cid>> {
    match Fields(s)
    case None => None
    case Some(fs) => Collect(fs, links)
  }

  /** The CIDs a node links to, in order; `None` unless every byte and every link of it is readable. */
  ghost function Links(block: seq<byte>): Option<seq<Cid>> {
    LinksFrom(block, [])
  }

  ghost function HashFrom(s: seq<byte>, hash: Option<Cid>): Option<Cid> {
    match Fields(s)
    case None => None
    case Some(fs) => LastHash(fs, hash)
  }

  lemma FieldsStep(s: seq<byte>)
    requires s != []
    ensures match ReadVarint(s, PB_VARINT_BYTES)
            case None => Fields(s).None?
            case Some(tag) =>
              var key := tag.value % U64;
              match TakeBody(key % 8, s[tag.size..])
              case None => Fields(s).None?
              case Some(body) =>
                Fields(s) == Prepend(Field(key / 8, key % 8, body.payload), Fields(body.rest))
  {
  }

  // ---- The moving cursor ----

  class Reader {
    ghost const origin: seq<byte>
    var input: seq<byte>

    /** The cursor never leaves the block: what is unread is a suffix of it. */
    ghost predicate Valid()
      reads this
    {
      |input| <= |origin| && input == origin[|origin| - |input|..]
    }

    constructor (input: seq<byte>)
      ensures Valid() && this.input == input && origin == input
    {
      this.input := input;
      origin := input;
    }

    method Varint() returns (r: Option<nat>)
      requires Valid()
      modifies this
      ensures Valid()
      ensures match ReadVarint(old(input), PB_VARINT_BYTES)
              case None => r.None?
              case Some(v) => r == Some(v.value % U64) && input == old(input)[v.size..]
    {
      var v := Read(input, PB_VARINT_BYTES);
      if v.None? {
        return None;
      }
      input := v.value.1;
      return Some(v.value.0);
    }

    /** `Some(None)` is a clean end of input, `None` is malformed. */
    method Tag() returns (r: Option<Option<(nat, nat)>>)
      requires Valid()
      modifies this
      ensures Valid()
      ensures old(input) == [] ==> r == Some(None) && input == []
      ensures old(input) != [] ==>
        match ReadVarint(old(input), PB_VARINT_BYTES)
        case None => r.None?
        case Some(v) => r == Some(Some((v.value % U64 / 8, v.value % U64 % 8))) && input == old(input)[v.size..]
    {
      if input == [] {
        return Some(None);
      }
      var key := Varint();
      if key.None? {
        return None;
      }
      TagParts(key.value);
      return Some(Some((Shr(key.value, 3), And(key.value, 0x7))));
    }

    method Take(count: nat) returns (ok: bool)
      requires Valid()
      modifies this
      ensures Valid()
      ensures ok <==> |old(input)| >= count
      ensures ok ==> input == old(input)[count..]
    {
      if |input| < count {
        return false;
      }
      input := input[count..];
      return true;
    }

    method LengthDelimited() returns (r: Option<seq<byte>>)
      requires Valid()
      modifies this
      ensures Valid()
      ensures match TakeDelimited(old(input))
              case None => r.None?
              case Some(t) => r == Some(t.payload) && input == t.rest
    {
      var length := Varint();
      if length.None? || length.value > |input| {
        return None;
      }
      r := Some(input[..length.value]);
      input := input[length.value..];
    }

    method Skip(wire: nat) returns (ok: bool)
      requires Valid()
      modifies this
      ensures Valid()
      ensures ok <==> TakeBody(wire, old(input)).Some?
      ensures ok ==> input == TakeBody(wire, old(input)).value.rest
    {
      match wire
      case 0 =>
        var v := Varint();
        return v.Some?;
      case 1 =>
        ok := Take(8);
      case 2 =>
        var d := LengthDelimited();
        return d.Some?;
      case 5 =>
        ok := Take(4);
      case _ =>
        return false;
    }
  }

  lemma TagParts(key: nat)
    ensures Shr(key, 3) == key / 8 && And(key, 0x7) == key % 8
  {
    assert Pow2(3) == 8;
    AndIsMod(key, 3);
  }

  lemma HashDone(hash: Option<Cid>)
    ensures HashFrom([], hash) == hash
  {
  }

  /** What one field does to the hash found so far. */
  lemma HashStep(s: seq<byte>, hash: Option<Cid>)
    requires s != []
    ensures match ReadVarint(s, PB_VARINT_BYTES)
            case None => HashFrom(s, hash).None?
            case Some(tag) =>
              var key, rest := tag.value % U64, s[tag.size..];
              if key / 8 == 1 && key % 8 == 2 then
                match TakeDelimited(rest)
                case None => HashFrom(s, hash).None?
                case Some(t) =>
                  (match FromBinary(t.payload)
                   case None => HashFrom(s, hash).None?
                   case Some(c) => HashFrom(s, hash) == HashFrom(t.rest, Some(c)))
              else
                match TakeBody(key % 8, rest)
                case None => HashFrom(s, hash).None?
                case Some(t) => HashFrom(s, hash) == HashFrom(t.rest, hash)
  {
    FieldsStep(s);
    hide Fields, ReadVarint, TakeVarint, TakeFixed, TakeDelimited, FromBinary;
  }

  /** How reading one field went: it was read, there was none left, or the input is malformed. */
  datatype Progress = More | End | Malformed

  /** Reads one field of a link, and takes the hash if it is one. */
  method ReadHashField(reader: Reader, hash: Option<Cid>) returns (progress: Progress, hash': Option<Cid>)
    requires reader.Valid()
    modifies reader
    ensures reader.Valid()
    ensures match progress
            case More =>
              && |reader.input| < |old(reader.input)|
              && HashFrom(reader.input, hash') == HashFrom(old(reader.input), hash)
            case End => HashFrom(old(reader.input), hash) == hash' == hash
            case Malformed => HashFrom(old(reader.input), hash).None?
  {
    HashDone(hash);
    if reader.input != [] {
      HashStep(reader.input, hash);
    }
    hide *;
    var tag := reader.Tag();
    if tag.None? {
      return Malformed, hash;
    }
    if tag.value.None? {
      return End, hash;
    }
    var (field, wire) := tag.value.value;
    if field == 1 && wire == 2 {
      var bytes := reader.LengthDelimited();
      if bytes.None? {
        return Malformed, hash;
      }
      hash' := ParseBinary(bytes.value);
      if hash'.None? {
        return Malformed, hash;
      }
      return More, hash';
    }
    var ok := reader.Skip(wire);
    return if ok then More else Malformed, hash;
  }

  method ReadLinkHash(link: seq<byte>) returns (hash: Option<Cid>)
    ensures hash == LinkHash(link)
  {
    assert LinkHash(link) == HashFrom(link, None);
    hide LinkHash, HashFrom;
    var reader := new Reader(link);
    hash := None;
    while true
      invariant reader.Valid()
      invariant HashFrom(reader.input, hash) == LinkHash(link)
      decreases |reader.input|
    {
      var progress;
      progress, hash := ReadHashField(reader, hash);
      if progress.Malformed? {
        return None;
      }
      if progress.End? {
        return hash;
      }
    }
  }

  lemma LinksDone(links: seq<Cid>)
    ensures LinksFrom([], links) == Some(links)
  {
  }

  /** What one field does to the links found so far. */
  lemma LinksStep(s: seq<byte>, links: seq<Cid>)
    requires s != []
    ensures match ReadVarint(s, PB_VARINT_BYTES)
            case None => LinksFrom(s, links).None?
            case Some(tag) =>
              var key, rest := tag.value % U64, s[tag.size..];
              if key / 8 == 2 && key % 8 == 2 then
                if |links| == MAX_LINKS_PER_NODE then LinksFrom(s, links).None?
                else
                  match TakeDelimited(rest)
                  case None => LinksFrom(s, links).None?
                  case Some(t) =>
                    (match LinkHash(t.payload)
                     case None => LinksFrom(s, links).None?
                     case Some(c) => LinksFrom(s, links) == LinksFrom(t.rest, links + [c]))
              else
                match TakeBody(key % 8, rest)
                case None => LinksFrom(s, links).None?
                case Some(t) => LinksFrom(s, links) == LinksFrom(t.rest, links)
  {
    FieldsStep(s);
    hide Fields, ReadVarint, TakeVarint, TakeFixed, TakeDelimited, LinkHash;
  }

  /** Reads one field of a block, and appends the link if it is one; too many links count as malformed. */
  method ReadLinkField(reader: Reader, links: seq<Cid>) returns (progress: Progress, links': seq<Cid>)
    requires reader.Valid()
    modifies reader
    ensures reader.Valid()
    ensures match progress
            case More =>
              && |reader.input| < |old(reader.input)|
              && LinksFrom(reader.input, links') == LinksFrom(old(reader.input), links)
            case End => LinksFrom(old(reader.input), links) == Some(links') && links' == links
            case Malformed => LinksFrom(old(reader.input), links).None?
  {
    LinksDone(links);
    if reader.input != [] {
      LinksStep(reader.input, links);
    }
    hide *;
    var tag := reader.Tag();
    if tag.None? {
      return Malformed, links;
    }
    if tag.value.None? {
      return End, links;
    }
    var (field, wire) := tag.value.value;
    if field == 2 && wire == 2 {
      if |links| == MAX_LINKS_PER_NODE {
        return Malformed, links;
      }
      var bytes := reader.LengthDelimited();
      if bytes.None? {
        return Malformed, links;
      }
      var hash := ReadLinkHash(bytes.value);
      if hash.None? {
        return Malformed, links;
      }
      links' := links + [hash.value];
      return More, links';
    }
    var ok := reader.Skip(wire);
    return if ok then More else Malformed, links;
  }

  method ReadLinks(block: seq<byte>) returns (r: Option<seq<Cid>>)
    ensures r == Links(block)
  {
    assert Links(block) == LinksFrom(block, []);
    hide Links, LinksFrom;
    var reader := new Reader(block);
    var links: seq<Cid> := [];
    while true
      invariant reader.Valid()
      invariant LinksFrom(reader.input, links) == Links(block)
      decreases |reader.input|
    {
      var progress;
      progress, links := ReadLinkField(reader, links);
      if progress.Malformed? {
        return None;
      }
      if progress.End? {
        return Some(links);
      }
    }
  }

  // ---- The printer, and the parser undoing it ----

  /** One byte of tag, one byte of length, the bytes, and what comes after them. */
  function Delimited(tag: byte, payload: seq<byte>, rest: seq<byte>): seq<byte> {
    [tag] + ([|payload| % 256] + (payload + rest))
  }

  ghost function LinkBytes(c: Cid): seq<byte> {
    Delimited(0x0a, ToBinary(c), [0x12, 0x00])
  }

  /** A node linking to `children`, with the unixfs framing a real root carries. */
  ghost function Node(children: seq<Cid>): seq<byte> {
    if children == [] then [0x0a, 0x02, 0x08, 0x02]
    else Delimited(0x12, LinkBytes(children[0]), Node(children[1..]))
  }

  lemma {:induction false} HeaderIsShort(b: seq<byte>, n: nat)
    requires ReadAll(b, n).Some?
    ensures ReadAll(b, n).value.size <= VARINT_BYTES * n
  {
    if n > 0 {
      HeaderIsShort(b[ReadVarint(b, VARINT_BYTES).value.size..], n - 1);
    }
  }

  lemma ReadSmall(x: byte, t: seq<byte>)
    requires x < 128
    ensures ReadVarint([x] + t, PB_VARINT_BYTES) == Some(Varint(x, 1))
    ensures ([x] + t)[1..] == t
  {
  }

  lemma TakeShort(payload: seq<byte>, rest: seq<byte>)
    requires |payload| < 128
    ensures TakeDelimited([|payload| % 256] + (payload + rest)) == Some(Taken(payload, rest))
  {
    ReadSmall(|payload|, payload + rest);
    assert (payload + rest)[..|payload|] == payload && (payload + rest)[|payload|..] == rest;
  }

  lemma FieldsFirst(tag: byte, s: seq<byte>, body: Taken)
    requires tag < 128 && TakeBody(tag % 8, s) == Some(body)
    ensures Fields([tag] + s) == Prepend(Field(tag / 8, tag % 8, body.payload), Fields(body.rest))
  {
    ReadSmall(tag, s);
    assert tag % U64 == tag;
    FieldsStep([tag] + s);
  }

  /** A field of bytes short enough for a one-byte length is read back whole. */
  lemma FieldsOfDelimited(tag: byte, payload: seq<byte>, rest: seq<byte>)
    requires tag < 128 && tag % 8 == 2 && |payload| < 128
    ensures Fields(Delimited(tag, payload, rest)) == Prepend(Field(tag / 8, 2, payload), Fields(rest))
  {
    TakeShort(payload, rest);
    FieldsFirst(tag, [|payload| % 256] + (payload + rest), Taken(payload, rest));
  }

  lemma PrependHash(f: Field, r: Option<seq<Field>>)
    requires IsBytes(f, 1) && r.Some?
    ensures Prepend(f, r).Some?
    ensures LastHash(Prepend(f, r).value, None) ==
            match FromBinary(f.payload) case None => None case Some(c) => LastHash(r.value, Some(c))
  {
    assert ([f] + r.value)[1..] == r.value;
  }

  lemma LinkBytesRead(c: Cid)
    requires IsCid(c)
    ensures |LinkBytes(c)| < 128
    ensures LinkHash(LinkBytes(c)) == Some(c)
  {
    CidBinary(c);
    HeaderIsShort(ToBinary(c), 4);
    BinaryRoundTrip(c);
    HashReadBack(ToBinary(c), c);
  }

  lemma HashReadBack(hash: seq<byte>, c: Cid)
    requires |hash| < 128 && FromBinary(hash) == Some(c)
    ensures LinkHash(Delimited(0x0a, hash, [0x12, 0x00])) == Some(c)
  {
    FieldsOfDelimited(0x0a, hash, [0x12, 0x00]);
    EmptyName();
    PrependHash(Field(1, 2, hash), Fields([0x12, 0x00]));
  }

  lemma NoFields()
    ensures Fields([]) == Some([])
  {
  }

  /** A link's second field, as printed: a name of no bytes. */
  lemma EmptyName()
    ensures Fields([0x12, 0x00]) == Some([Field(2, 2, [])])
  {
    NoFields();
    hide Fields;
    FieldsOfDelimited(0x12, [], []);
    assert Delimited(0x12, [], []) == [0x12, 0x00];
    assert [Field(2, 2, [])] + [] == [Field(2, 2, [])];
  }

  lemma Framing()
    ensures Fields([0x0a, 0x02, 0x08, 0x02]) == Some([Field(1, 2, [0x08, 0x02])])
  {
    NoFields();
    hide Fields;
    FieldsOfDelimited(0x0a, [0x08, 0x02], []);
    assert Delimited(0x0a, [0x08, 0x02], []) == [0x0a, 0x02, 0x08, 0x02];
    var f := Field(1, 2, [0x08, 0x02]);
    assert [f] + [] == [f];
  }

  ghost function LinkFields(children: seq<Cid>): (fs: seq<Field>)
    ensures |fs| == |children|
    ensures forall i :: 0 <= i < |fs| ==> fs[i] == Field(2, 2, LinkBytes(children[i]))
  {
    seq(|children|, i requires 0 <= i < |children| => Field(2, 2, LinkBytes(children[i])))
  }

  /** A printed node parses to one field a link, then the framing. */
  lemma {:induction false} FieldsOfNode(children: seq<Cid>)
    requires forall i :: 0 <= i < |children| ==> |LinkBytes(children[i])| < 128
    ensures Fields(Node(children)) == Some(LinkFields(children) + [Field(1, 2, [0x08, 0x02])])
  {
    hide Fields, LinkBytes;
    var last := [Field(1, 2, [0x08, 0x02])];
    if children == [] {
      Framing();
      assert LinkFields(children) + last == last;
    } else {
      FieldsOfNode(children[1..]);
      FieldsOfDelimited(0x12, LinkBytes(children[0]), Node(children[1..]));
      assert [Field(2, 2, LinkBytes(children[0]))] + (LinkFields(children[1..]) + last) == LinkFields(children) + last;
    }
  }

  /** Links are collected in order, up to the cap. */
  lemma {:induction false} CollectInOrder(fs: seq<Field>, cs: seq<Cid>, last: Field, links: seq<Cid>)
    requires |fs| == |cs| && |links| <= MAX_LINKS_PER_NODE && !IsBytes(last, 2)
    requires forall i :: 0 <= i < |fs| ==> IsBytes(fs[i], 2) && LinkHash(fs[i].payload) == Some(cs[i])
    ensures Collect(fs + [last], links) ==
            if |links| + |cs| <= MAX_LINKS_PER_NODE then Some(links + cs) else None
  {
    hide LinkHash;
    var all := fs + [last];
    if fs == [] {
      assert all[1..] == [];
      assert Collect(all, links) == Collect([], links);
      assert links + cs == links;
    } else {
      assert all[0] == fs[0] && all[1..] == fs[1..] + [last];
      if |links| < MAX_LINKS_PER_NODE {
        assert Collect(all, links) == Collect(all[1..], links + [cs[0]]);
        CollectInOrder(fs[1..], cs[1..], last, links + [cs[0]]);
        assert links + [cs[0]] + cs[1..] == links + cs;
      }
    }
  }

  /** Exactly the nodes within the link cap are read back, as the children they were printed from. */
  lemma LinksOfNode(children: seq<Cid>)
    requires forall i :: 0 <= i < |children| ==> IsCid(children[i])
    ensures Links(Node(children)) == if |children| <= MAX_LINKS_PER_NODE then Some(children) else None
  {
    forall i | 0 <= i < |children|
      ensures |LinkBytes(children[i])| < 128 && LinkHash(LinkBytes(children[i])) == Some(children[i])
    {
      LinkBytesRead(children[i]);
    }
    FieldsOfNode(children);
    CollectInOrder(LinkFields(children), children, Field(1, 2, [0x08, 0x02]), []);
    assert [] + children == children;
  }

  /** Whatever the bytes, the links read off them are identifiers this protocol accepts. */
  lemma LinksAreCids(block: seq<byte>)
    requires Links(block).Some?
    ensures forall c :: c in Links(block).value ==> IsCid(c)
    ensures |Links(block).value| <= MAX_LINKS_PER_NODE
  {
    CollectedAreCids(Fields(block).value, []);
  }

  lemma {:induction false} CollectedAreCids(fs: seq<Field>, links: seq<Cid>)
    requires |links| <= MAX_LINKS_PER_NODE
    requires (forall c :: c in links ==> IsCid(c)) && Collect(fs, links).Some?
    ensures forall c :: c in Collect(fs, links).value ==> IsCid(c)
    ensures |Collect(fs, links).value| <= MAX_LINKS_PER_NODE
  {
    if fs != [] {
      if IsBytes(fs[0], 2) {
        LastHashIsCid(Fields(fs[0].payload).value, None);
        CollectedAreCids(fs[1..], links + [LinkHash(fs[0].payload).value]);
      } else {
        CollectedAreCids(fs[1..], links);
      }
    }
  }

  lemma {:induction false} LastHashIsCid(fs: seq<Field>, hash: Option<Cid>)
    requires hash.Some? ==> IsCid(hash.value)
    ensures LastHash(fs, hash).Some? ==> IsCid(LastHash(fs, hash).value)
  {
    if fs != [] {
      if !IsBytes(fs[0], 1) {
        LastHashIsCid(fs[1..], hash);
      } else if FromBinary(fs[0].payload).Some? {
        LastHashIsCid(fs[1..], FromBinary(fs[0].payload));
      }
    }
  }
}
