/**
 What a dag-pb block says, apart from how it is read: the Protocol Buffers wire
 encoding as a relation between bytes and fields, a printer that meets it, and
 the links a list of fields names. The parser is proved to agree with all three.
 */
module Wire {
  import opened Wrappers
  import opened MachineInt
  import opened Varints
  import opened Cids
  import opened DagPb

  // ---- The encoding as a relation ----

  /** A varint of at most ten bytes, worth `n` in a 64-bit word. */
  ghost predicate Writes(s: seq<byte>, n: nat) {
    IsVarint(s) && |s| <= 10 && GroupValue(s) % U64 == n
  }

  /** `body` is how a field of this wire type carries `payload`. Other types carry nothing that could be skipped. */
  ghost predicate IsBody(wire: nat, body: seq<byte>, payload: seq<byte>) {
    match wire
    case 0 => IsVarint(body) && |body| <= 10 && payload == body
    case 1 => |body| == 8 && payload == body
    case 2 => exists k :: 0 <= k <= |body| && Writes(body[..k], |payload|) && body[k..] == payload
    case 5 => |body| == 4 && payload == body
    case _ => false
  }

  /** A tag made of the number and the type, then the body. */
  ghost predicate IsField(s: seq<byte>, f: Field) {
    && f.wire < 8
    && exists k :: 0 <= k <= |s| && Writes(s[..k], 8 * f.number + f.wire) && IsBody(f.wire, s[k..], f.payload)
  }

  /** The bytes are the fields, one after another. */
  ghost predicate Encodes(s: seq<byte>, fs: seq<Field>)
    decreases |fs|
  {
    if fs == [] then s == []
    else exists k :: 0 < k <= |s| && IsField(s[..k], fs[0]) && Encodes(s[k..], fs[1..])
  }

  lemma ReadsWord(s: seq<byte>, k: nat, n: nat)
    requires k <= |s|
    ensures Writes(s[..k], n) <==>
      match ReadVarint(s, PB_VARINT_BYTES) case None => false case Some(v) => v.size == k && v.value % U64 == n
  {
    hide ReadVarint, IsVarint, GroupValue;
    ReadVarintIff(s, PB_VARINT_BYTES, Varint(GroupValue(s[..k]), k));
    if k == 0 {
      NoVarint();
    }
    if ReadVarint(s, PB_VARINT_BYTES).Some? {
      ReadVarintIff(s, PB_VARINT_BYTES, ReadVarint(s, PB_VARINT_BYTES).value);
    }
  }

  lemma NoVarint()
    ensures !IsVarint([])
  {
  }

  /** A body is taken off the front exactly when one stands there. */
  lemma TakeBodyIff(wire: nat, s: seq<byte>, k: nat, payload: seq<byte>)
    requires k <= |s|
    ensures TakeBody(wire, s) == Some(Taken(payload, s[k..])) <==> IsBody(wire, s[..k], payload)
  {
    hide ReadVarint, IsVarint, GroupValue;
    match wire
    case 0 =>
      TakeVarintIff(s, k, payload);
    case 2 =>
      TakeDelimitedIff(s, k, payload);
    case 1 =>
      TakeFixedIff(s, 8, k, payload);
    case 5 =>
      TakeFixedIff(s, 4, k, payload);
    case _ =>
  }

  lemma TakeFixedIff(s: seq<byte>, count: nat, k: nat, payload: seq<byte>)
    requires k <= |s|
    ensures TakeFixed(s, count) == Some(Taken(payload, s[k..])) <==> k == count && payload == s[..k]
  {
    if |s| >= count && s[count..] == s[k..] {
      assert |s| - count == |s| - k;
    }
  }

  lemma TakeVarintIff(s: seq<byte>, k: nat, payload: seq<byte>)
    requires k <= |s|
    ensures TakeVarint(s) == Some(Taken(payload, s[k..])) <==> IsVarint(s[..k]) && k <= 10 && payload == s[..k]
  {
    hide ReadVarint, IsVarint, GroupValue;
    var r := ReadVarint(s, PB_VARINT_BYTES);
    ReadsWord(s, k, GroupValue(s[..k]) % U64);
    if r.Some? {
      var size := r.value.size;
      ReadsWord(s, size, r.value.value % U64);
      assert |s[k..]| == |s| - k && |s[size..]| == |s| - size;
    }
  }

  lemma TakeDelimitedIff(s: seq<byte>, k: nat, payload: seq<byte>)
    requires k <= |s|
    ensures TakeDelimited(s) == Some(Taken(payload, s[k..])) <==>
            exists j :: 0 <= j <= k && Writes(s[..k][..j], |payload|) && s[..k][j..] == payload
  {
    hide ReadVarint, Writes;
    forall j | 0 <= j <= k
      ensures s[..k][..j] == s[..j]
      ensures Writes(s[..j], |payload|) <==>
        match ReadVarint(s, PB_VARINT_BYTES)
        case None => false
        case Some(v) => v.size == j && v.value % U64 == |payload|
    {
      ReadsWord(s, j, |payload|);
    }
    var r := ReadVarint(s, PB_VARINT_BYTES);
    if r.Some? {
      var size, length := r.value.size, r.value.value % U64;
      TakeFixedIff(s[size..], length, if k >= size then k - size else 0, payload);
      if k >= size {
        assert s[size..][k - size..] == s[k..] && s[size..][..k - size] == s[..k][size..];
      }
    }
  }

  /** The parser splits a block into fields exactly when the block encodes them. */
  lemma {:induction false} FieldsIff(s: seq<byte>, fs: seq<Field>)
    ensures Fields(s) == Some(fs) <==> Encodes(s, fs)
    decreases |s|
  {
    hide ReadVarint, Writes, IsBody, TakeBody;
    if Fields(s) == Some(fs) && s != [] {
      FieldsEncode(s, fs);
    }
    if Encodes(s, fs) && fs != [] {
      var k :| 0 < k <= |s| && IsField(s[..k], fs[0]) && Encodes(s[k..], fs[1..]);
      FieldsIff(s[k..], fs[1..]);
      FirstField(s, k, fs[0]);
      assert [fs[0]] + fs[1..] == fs;
    }
  }

  lemma TagSplits(number: nat, wire: nat)
    requires wire < 8
    ensures (8 * number + wire) / 8 == number && (8 * number + wire) % 8 == wire
  {
  }

  lemma KeyParts(key: nat)
    ensures key % 8 < 8 && key == 8 * (key / 8) + key % 8
  {
  }

  /** With the tag known, the body decides. */
  lemma AfterTag(s: seq<byte>, j: nat, number: nat, wire: nat)
    requires j <= |s| && s != [] && wire < 8 && Writes(s[..j], 8 * number + wire)
    ensures match TakeBody(wire, s[j..])
            case None => Fields(s).None?
            case Some(body) => Fields(s) == Prepend(Field(number, wire, body.payload), Fields(body.rest))
  {
    hide *;
    ReadsWord(s, j, 8 * number + wire);
    TagSplits(number, wire);
    AfterKey(s, j, 8 * number + wire);
  }

  lemma AfterKey(s: seq<byte>, j: nat, key: nat)
    requires j <= |s| && s != []
    requires match ReadVarint(s, PB_VARINT_BYTES) case None => false case Some(v) => v.size == j && v.value % U64 == key
    ensures match TakeBody(key % 8, s[j..])
            case None => Fields(s).None?
            case Some(body) => Fields(s) == Prepend(Field(key / 8, key % 8, body.payload), Fields(body.rest))
  {
    hide *;
    FieldsStep(s);
  }

  lemma FirstField(s: seq<byte>, k: nat, f: Field)
    requires k <= |s| && s != [] && IsField(s[..k], f)
    ensures Fields(s) == Prepend(f, Fields(s[k..]))
  {
    hide Writes, IsBody, TakeBody, Fields;
    var j :| 0 <= j <= k && Writes(s[..k][..j], 8 * f.number + f.wire) && IsBody(f.wire, s[..k][j..], f.payload);
    assert s[..k][..j] == s[..j];
    AfterTag(s, j, f.number, f.wire);
    assert s[..k][j..] == s[j..][..k - j];
    TakeBodyIff(f.wire, s[j..], k - j, f.payload);
    assert s[j..][k - j..] == s[k..];
  }

  lemma FieldsEncode(s: seq<byte>, fs: seq<Field>)
    requires s != [] && Fields(s) == Some(fs)
    ensures Encodes(s, fs)
    decreases |s|
  {
    NoFields();
    hide Writes, IsBody, TakeBody, Fields;
    var j, key := HasTag(s);
    var number, wire := key / 8, key % 8;
    KeyParts(key);
    AfterTag(s, j, number, wire);
    var body := TakeBody(wire, s[j..]).value;
    BodyIsSuffix(wire, s[j..]);
    var k := |s| - |body.rest|;
    assert s[j..][k - j..] == s[k..];
    TakeBodyIff(wire, s[j..], k - j, body.payload);
    assert s[..k][..j] == s[..j] && s[..k][j..] == s[j..][..k - j];
    var rest := Fields(s[k..]).value;
    assert fs == [Field(number, wire, body.payload)] + rest;
    assert IsField(s[..k], fs[0]);
    assert fs[1..] == rest;
    if s[k..] != [] {
      FieldsEncode(s[k..], rest);
    }
  }

  lemma HasTag(s: seq<byte>) returns (j: nat, key: nat)
    requires s != [] && Fields(s).Some?
    ensures 0 < j <= |s| && Writes(s[..j], key)
  {
    var tag := ReadVarint(s, PB_VARINT_BYTES).value;
    j, key := tag.size, tag.value % U64;
    ReadsWord(s, j, key);
  }

  lemma BodyIsSuffix(wire: nat, s: seq<byte>)
    requires TakeBody(wire, s).Some?
    ensures var rest := TakeBody(wire, s).value.rest; |rest| <= |s| && rest == s[|s| - |rest|..]
  {
    hide ReadVarint;
  }

  // ---- A printer for fields of every type ----

  /** A field that has an encoding: a tag that fits the word, and a payload of the type's size. */
  ghost predicate IsPrintable(f: Field) {
    && 8 * f.number + f.wire < U64
    && match f.wire
       case 0 => IsVarint(f.payload) && |f.payload| <= 10
       case 1 => |f.payload| == 8
       case 2 => |f.payload| < U64
       case 5 => |f.payload| == 4
       case _ => false
  }

  function PrintBody(f: Field): seq<byte> {
    if f.wire == 2 then WriteVarint(|f.payload|) + f.payload else f.payload
  }

  function PrintField(f: Field): seq<byte> {
    WriteVarint(8 * f.number + f.wire) + PrintBody(f)
  }

  function Print(fs: seq<Field>): seq<byte> {
    if fs == [] then [] else PrintField(fs[0]) + Print(fs[1..])
  }

  lemma WrittenWord(n: nat)
    requires n < U64
    ensures Writes(WriteVarint(n), n) && WriteVarint(n) != []
  {
    WrittenValue(n);
    WordFitsTen(n);
  }

  lemma PrintedBody(f: Field)
    requires IsPrintable(f)
    ensures IsBody(f.wire, PrintBody(f), f.payload)
  {
    hide Writes, IsVarint;
    if f.wire == 2 {
      var length := WriteVarint(|f.payload|);
      WrittenWord(|f.payload|);
      assert PrintBody(f)[..|length|] == length && PrintBody(f)[|length|..] == f.payload;
    }
  }

  lemma PrintedField(f: Field)
    requires IsPrintable(f)
    ensures IsField(PrintField(f), f) && PrintField(f) != []
  {
    var tag := WriteVarint(8 * f.number + f.wire);
    WrittenWord(8 * f.number + f.wire);
    PrintedBody(f);
    hide Writes, IsBody, PrintBody;
    assert PrintField(f)[..|tag|] == tag && PrintField(f)[|tag|..] == PrintBody(f);
  }

  lemma {:induction false} PrintedFields(fs: seq<Field>)
    requires forall i :: 0 <= i < |fs| ==> IsPrintable(fs[i])
    ensures Encodes(Print(fs), fs)
  {
    hide IsPrintable, IsField, PrintField;
    if fs != [] {
      PrintedField(fs[0]);
      PrintedFields(fs[1..]);
      var k := |PrintField(fs[0])|;
      assert Print(fs)[..k] == PrintField(fs[0]) && Print(fs)[k..] == Print(fs[1..]);
    }
  }

  /** Fields of every wire type, with tags and lengths of every size, are read back as they were printed. */
  lemma FieldsOfPrint(fs: seq<Field>)
    requires forall i :: 0 <= i < |fs| ==> IsPrintable(fs[i])
    ensures Fields(Print(fs)) == Some(fs)
  {
    hide IsPrintable, Encodes, Fields;
    PrintedFields(fs);
    FieldsIff(Print(fs), fs);
  }

  // ---- The hash of a link, and the links of a node ----

  /** `Hash`, field one of a link, and `Links`, field two of a node, both of bytes. */
  predicate IsHash(f: Field) {
    f.number == 1 && f.wire == 2
  }

  predicate IsLink(f: Field) {
    f.number == 2 && f.wire == 2
  }

  ghost predicate NoHash(fs: seq<Field>) {
    forall i :: 0 <= i < |fs| ==> !IsHash(fs[i])
  }

  ghost predicate HashesAreCids(fs: seq<Field>) {
    forall i :: 0 <= i < |fs| && IsHash(fs[i]) ==> FromBinary(fs[i].payload).Some?
  }

  ghost predicate IsLastHashAt(fs: seq<Field>, k: nat, c: Cid) {
    k < |fs| && IsHash(fs[k]) && FromBinary(fs[k].payload) == Some(c) && NoHash(fs[k + 1..])
  }

  /** Every hash is an identifier, and the last of them is `c`. */
  ghost predicate IsLastHash(fs: seq<Field>, c: Cid) {
    HashesAreCids(fs) && exists k: nat :: IsLastHashAt(fs, k, c)
  }

  lemma {:induction false} LastHashIff(fs: seq<Field>, hash: Option<Cid>, c: Cid)
    ensures LastHash(fs, hash) == Some(c) <==> IsLastHash(fs, c) || (NoHash(fs) && hash == Some(c))
  {
    hide FromBinary, IsLastHash;
    if fs == [] {
      NoFieldNoHash(c);
    } else {
      HeadHash(fs, c);
      hide NoHash;
      if !IsHash(fs[0]) {
        LastHashIff(fs[1..], hash, c);
      } else if FromBinary(fs[0].payload).Some? {
        LastHashIff(fs[1..], FromBinary(fs[0].payload), c);
      }
    }
  }

  lemma NoFieldNoHash(c: Cid)
    ensures !IsLastHash([], c)
  {
  }

  lemma HeadHash(fs: seq<Field>, c: Cid)
    requires fs != []
    ensures NoHash(fs) <==> !IsHash(fs[0]) && NoHash(fs[1..])
    ensures !IsHash(fs[0]) ==> (IsLastHash(fs, c) <==> IsLastHash(fs[1..], c))
    ensures IsHash(fs[0]) ==>
      (IsLastHash(fs, c) <==> FromBinary(fs[0].payload).Some? &&
                              (IsLastHash(fs[1..], c) || (NoHash(fs[1..]) && FromBinary(fs[0].payload) == Some(c))))
  {
    hide FromBinary;
    HeadParses(fs);
    hide NoHash, HashesAreCids;
    if k: nat :| IsLastHashAt(fs, k, c) {
      if k > 0 {
        LaterHash(fs, k - 1, c);
      }
    }
    if k: nat :| IsLastHashAt(fs[1..], k, c) {
      LaterHash(fs, k, c);
    }
    assert IsHash(fs[0]) && NoHash(fs[1..]) && FromBinary(fs[0].payload) == Some(c) ==> IsLastHashAt(fs, 0, c);
  }

  lemma HeadParses(fs: seq<Field>)
    requires fs != []
    ensures NoHash(fs) <==> !IsHash(fs[0]) && NoHash(fs[1..])
    ensures HashesAreCids(fs) <==> (IsHash(fs[0]) ==> FromBinary(fs[0].payload).Some?) && HashesAreCids(fs[1..])
    ensures NoHash(fs) ==> HashesAreCids(fs)
    ensures NoHash(fs[1..]) ==> HashesAreCids(fs[1..])
  {
    hide FromBinary;
    var rest := fs[1..];
    assert forall i :: 0 < i < |fs| ==> fs[i] == rest[i - 1];
    assert forall i :: 0 <= i < |rest| ==> rest[i] == fs[i + 1];
  }

  lemma LaterHash(fs: seq<Field>, k: nat, c: Cid)
    requires fs != []
    ensures IsLastHashAt(fs, k + 1, c) <==> IsLastHashAt(fs[1..], k, c)
  {
    hide FromBinary;
    if k < |fs| - 1 {
      assert fs[1..][k + 1..] == fs[k + 2..] && fs[1..][k] == fs[k + 1];
    }
  }

  /** A link is to `c` exactly when its bytes encode fields whose hashes are all identifiers, the last of them `c`. */
  lemma LinkHashIff(link: seq<byte>, c: Cid)
    ensures LinkHash(link) == Some(c) <==> exists fs :: Encodes(link, fs) && IsLastHash(fs, c)
  {
    hide Encodes, IsLastHash, Fields, LastHash;
    if Fields(link).Some? {
      var fs := Fields(link).value;
      FieldsIff(link, fs);
      LastHashIff(fs, None, c);
    }
    if fs :| Encodes(link, fs) && IsLastHash(fs, c) {
      FieldsIff(link, fs);
      LastHashIff(fs, None, c);
    }
  }

  /** The link fields, in order. */
  function LinkPayloads(fs: seq<Field>): seq<seq<byte>> {
    if fs == [] then []
    else (if IsLink(fs[0]) then [fs[0].payload] else []) + LinkPayloads(fs[1..])
  }

  ghost predicate AreHashes(links: seq<seq<byte>>, cs: seq<Cid>) {
    |links| == |cs| && forall i :: 0 <= i < |cs| ==> LinkHash(links[i]) == Some(cs[i])
  }

  lemma {:induction false} CollectIff(fs: seq<Field>, links: seq<Cid>, cs: seq<Cid>)
    requires |links| <= MAX_LINKS_PER_NODE
    ensures Collect(fs, links) == Some(links + cs) <==>
            AreHashes(LinkPayloads(fs), cs) && |links| + |cs| <= MAX_LINKS_PER_NODE
  {
    hide LinkHash;
    if fs == [] {
      assert links + [] == links;
    } else if !IsLink(fs[0]) {
      CollectIff(fs[1..], links, cs);
      assert [] + LinkPayloads(fs[1..]) == LinkPayloads(fs[1..]);
    } else {
      CollectOne(fs, links, cs);
      if |links| < MAX_LINKS_PER_NODE && cs != [] {
        CollectIff(fs[1..], links + [cs[0]], cs[1..]);
      }
    }
  }

  lemma {:induction false} CollectExtends(fs: seq<Field>, links: seq<Cid>)
    requires Collect(fs, links).Some?
    ensures links <= Collect(fs, links).value
  {
    hide LinkHash;
    if fs != [] {
      if !IsLink(fs[0]) {
        CollectExtends(fs[1..], links);
      } else {
        CollectExtends(fs[1..], links + [LinkHash(fs[0].payload).value]);
      }
    }
  }

  lemma CollectOne(fs: seq<Field>, links: seq<Cid>, cs: seq<Cid>)
    requires fs != [] && IsLink(fs[0]) && |links| <= MAX_LINKS_PER_NODE
    ensures Collect(fs, links) == Some(links + cs) <==>
      && |links| < MAX_LINKS_PER_NODE && cs != [] && LinkHash(fs[0].payload) == Some(cs[0])
      && Collect(fs[1..], links + [cs[0]]) == Some(links + [cs[0]] + cs[1..])
    ensures AreHashes(LinkPayloads(fs), cs) <==>
      cs != [] && LinkHash(fs[0].payload) == Some(cs[0]) && AreHashes(LinkPayloads(fs[1..]), cs[1..])
  {
    hide LinkHash;
    var payloads, rest := LinkPayloads(fs), LinkPayloads(fs[1..]);
    assert payloads == [fs[0].payload] + rest;
    assert forall i :: 0 <= i < |rest| ==> payloads[i + 1] == rest[i];
    assert forall i :: 0 < i < |payloads| ==> payloads[i] == rest[i - 1];
    if cs != [] {
      assert links + [cs[0]] + cs[1..] == links + cs;
    }
    if Collect(fs, links) == Some(links + cs) {
      var c := LinkHash(fs[0].payload).value;
      CollectExtends(fs[1..], links + [c]);
      assert (links + [c])[|links|] == c;
    }
  }

  /**
   A node links to `cs` exactly when its bytes encode fields whose link fields, in
   order, are links to `cs`, and there are at most 1024 of them.
   */
  lemma LinksIff(block: seq<byte>, cs: seq<Cid>)
    ensures Links(block) == Some(cs) <==>
            exists fs :: Encodes(block, fs) && AreHashes(LinkPayloads(fs), cs) && |cs| <= MAX_LINKS_PER_NODE
  {
    hide Encodes, AreHashes, Fields, Collect;
    assert [] + cs == cs;
    if Fields(block).Some? {
      var fs := Fields(block).value;
      FieldsIff(block, fs);
      CollectIff(fs, [], cs);
    }
    if fs :| Encodes(block, fs) && AreHashes(LinkPayloads(fs), cs) && |cs| <= MAX_LINKS_PER_NODE {
      FieldsIff(block, fs);
      CollectIff(fs, [], cs);
    }
  }

  // ---- Nodes as other programs write them ----

  /** A link with a name and the size of what is under it. */
  datatype Link = Link(cid: Cid, name: seq<byte>, tsize: nat)

  ghost function FieldsOfLink(l: Link): seq<Field> {
    [Field(1, 2, ToBinary(l.cid)), Field(2, 2, l.name), Field(3, 0, WriteVarint(l.tsize))]
  }

  ghost function FieldOf(l: Link): Field {
    Field(2, 2, Print(FieldsOfLink(l)))
  }

  /** The links, then whatever data the node carries. */
  ghost function NodeFields(links: seq<Link>, data: seq<byte>): seq<Field> {
    if links == [] then [Field(1, 2, data)] else [FieldOf(links[0])] + NodeFields(links[1..], data)
  }

  ghost function CidsOf(links: seq<Link>): (cs: seq<Cid>)
    ensures |cs| == |links|
  {
    if links == [] then [] else [links[0].cid] + CidsOf(links[1..])
  }

  /** An accepted identifier, a size that fits the word, and lengths that do. */
  ghost predicate IsPrintableLink(l: Link) {
    IsCid(l.cid) && l.tsize < U64 && |ToBinary(l.cid)| < U64 && |l.name| < U64 && |Print(FieldsOfLink(l))| < U64
  }

  lemma LinkReadsBack(l: Link)
    requires IsPrintableLink(l)
    ensures LinkHash(Print(FieldsOfLink(l))) == Some(l.cid)
  {
    LinkFieldsPrint(l);
    LinkHasOneHash(l);
    hide *;
    var fs := FieldsOfLink(l);
    FieldsOfPrint(fs);
    LastHashIff(fs, None, l.cid);
    HashOfFields(Print(fs), fs);
  }

  lemma LinkFieldsPrint(l: Link)
    requires IsPrintableLink(l)
    ensures forall i :: 0 <= i < |FieldsOfLink(l)| ==> IsPrintable(FieldsOfLink(l)[i])
  {
    WordFitsTen(l.tsize);
    hide Print, WriteVarint, ToBinary, IsVarint;
  }

  lemma LinkHasOneHash(l: Link)
    requires IsCid(l.cid)
    ensures IsLastHash(FieldsOfLink(l), l.cid)
  {
    BinaryRoundTrip(l.cid);
    hide FromBinary, ToBinary, WriteVarint, IsCid;
    var fs := FieldsOfLink(l);
    assert IsLastHashAt(fs, 0, l.cid);
  }

  lemma HashOfFields(link: seq<byte>, fs: seq<Field>)
    requires Fields(link) == Some(fs)
    ensures LinkHash(link) == LastHash(fs, None)
  {
  }

  lemma {:induction false} NodePayloads(links: seq<Link>, data: seq<byte>)
    requires forall i :: 0 <= i < |links| ==> IsPrintableLink(links[i])
    ensures AreHashes(LinkPayloads(NodeFields(links, data)), CidsOf(links))
    ensures |data| < U64 ==> forall i :: 0 <= i < |NodeFields(links, data)| ==> IsPrintable(NodeFields(links, data)[i])
  {
    hide LinkHash, IsPrintableLink, Print, FieldsOfLink;
    var fs := NodeFields(links, data);
    if links == [] {
      assert LinkPayloads(fs) == LinkPayloads([]);
    } else {
      LinkReadsBack(links[0]);
      LinkIsShort(links[0]);
      NodePayloads(links[1..], data);
      assert fs[1..] == NodeFields(links[1..], data);
      assert LinkPayloads(fs) == [FieldOf(links[0]).payload] + LinkPayloads(fs[1..]);
    }
  }

  lemma LinkIsShort(l: Link)
    requires IsPrintableLink(l)
    ensures IsPrintable(FieldOf(l))
  {
  }

  /** Whatever names, sizes and data a node is written with, it reads back as its links in order, up to 1024 of them. */
  lemma LinksOfPrinted(links: seq<Link>, data: seq<byte>)
    requires (forall i :: 0 <= i < |links| ==> IsPrintableLink(links[i])) && |data| < U64
    ensures Links(Print(NodeFields(links, data))) ==
            if |links| <= MAX_LINKS_PER_NODE then Some(CidsOf(links)) else None
  {
    var fs := NodeFields(links, data);
    NodePayloads(links, data);
    hide *;
    FieldsOfPrint(fs);
    LinksOfFields(Print(fs), fs);
    ManyLinks(fs, CidsOf(links));
  }

  lemma LinksOfFields(block: seq<byte>, fs: seq<Field>)
    requires Fields(block) == Some(fs)
    ensures Links(block) == Collect(fs, [])
  {
  }

  lemma ManyLinks(fs: seq<Field>, cs: seq<Cid>)
    requires AreHashes(LinkPayloads(fs), cs)
    ensures Collect(fs, []) == if |cs| <= MAX_LINKS_PER_NODE then Some(cs) else None
  {
    hide LinkHash, LinkPayloads, Collect;
    CollectIff(fs, [], cs);
    assert [] + cs == cs;
    if Collect(fs, []).Some? {
      var ds := Collect(fs, []).value;
      assert [] + ds == ds;
      CollectIff(fs, [], ds);
    }
  }
}
