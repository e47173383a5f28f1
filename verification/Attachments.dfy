/**
 Public evidence attached to a settlement: signed records, stored on arrival by
 whichever node hears of them first, and shown only if a party published them.
 */
module Attachments {
  import opened Wrappers
  import opened Sorting
  import opened Cids
  import opened Records

  const MAX_ATTACHMENT_BYTES: nat := 10 * 1024 * 1024
  const MAX_CAPTION_CHARS: nat := 200

  type Signature = string

  datatype MediaType = Png | Jpeg | Webp | Pdf

  datatype Attachment = Attachment(
    id: string,
    settlement: string,
    author: PeerId,
    authorPublicKey: PublicKey,
    cid: Cid,
    mediaType: MediaType,
    sizeBytes: nat,
    caption: string,
    createdAt: nat)

  datatype ContentError = InvalidSignature | NotAParty | TooLarge | MalformedAttachment | DuplicateAttachmentId

  datatype Crypto = Crypto(verify: (PublicKey, Attachment, Signature) -> bool, peerOf: PublicKey -> Option<PeerId>)

  datatype Publish = Publish(attachment: Attachment, signature: Signature)

  type Index = map<string, Attachment>

  /** The author derives from the key the record carries, and that key signed the record. */
  predicate IsGenuine(crypto: Crypto, e: Publish) {
    && crypto.peerOf(e.attachment.authorPublicKey) == Some(e.attachment.author)
    && crypto.verify(e.attachment.authorPublicKey, e.attachment, e.signature)
  }

  predicate IsShaped(a: Attachment) {
    && 0 < a.sizeBytes <= MAX_ATTACHMENT_BYTES
    && |a.caption| <= MAX_CAPTION_CHARS
    && a.id != ""
  }

  /** Everything that can be decided from the publication alone. */
  predicate Acceptable(crypto: Crypto, e: Publish) {
    IsGenuine(crypto, e) && IsShaped(e.attachment)
  }

  /** First writer wins. */
  function Deliver(crypto: Crypto, index: Index, e: Publish): Index {
    if Acceptable(crypto, e) && e.attachment.id !in index then index[e.attachment.id := e.attachment] else index
  }

  function DeliverAll(crypto: Crypto, es: seq<Publish>): Index {
    if es == [] then map[] else Deliver(crypto, DeliverAll(crypto, es[..|es| - 1]), es[|es| - 1])
  }

  /** Which check refuses a publication first. */
  function Refusal(crypto: Crypto, index: Index, e: Publish): Option<ContentError> {
    var a := e.attachment;
    match crypto.peerOf(a.authorPublicKey)
    case None => Some(InvalidSignature)
    case Some(peer) =>
      if peer != a.author then Some(NotAParty)
      else if !crypto.verify(a.authorPublicKey, a, e.signature) then Some(InvalidSignature)
      else if a.sizeBytes == 0 || a.sizeBytes > MAX_ATTACHMENT_BYTES then Some(TooLarge)
      else if |a.caption| > MAX_CAPTION_CHARS then Some(MalformedAttachment)
      else if a.id == "" then Some(MalformedAttachment)
      else if a.id in index then Some(DuplicateAttachmentId)
      else None
  }

  /** Which reason a refused publication gets: the first of four that applies. */
  lemma RefusalMeans(crypto: Crypto, index: Index, e: Publish)
    ensures
      var a, peer, r := e.attachment, crypto.peerOf(e.attachment.authorPublicKey), Refusal(crypto, index, e);
      var genuine := peer == Some(a.author) && crypto.verify(a.authorPublicKey, a, e.signature);
      var sized := 0 < a.sizeBytes <= MAX_ATTACHMENT_BYTES;
      && (r == Some(NotAParty) <==> peer.Some? && peer.value != a.author)
      && (r == Some(InvalidSignature) <==> peer.None? || (peer == Some(a.author) && !genuine))
      && (r == Some(TooLarge) <==> genuine && !sized)
      && (r == Some(MalformedAttachment) <==> genuine && sized && (|a.caption| > MAX_CAPTION_CHARS || a.id == ""))
      && (r == Some(DuplicateAttachmentId) <==> Acceptable(crypto, e) && a.id in index)
      && (r == None <==> Acceptable(crypto, e) && a.id !in index)
  {
  }

  // ---- The order attachments are shown in ----

  predicate ShownBefore(a: Attachment, b: Attachment) {
    a.createdAt < b.createdAt || (a.createdAt == b.createdAt && StringLe(a.id, b.id))
  }

  lemma ShownOrder()
    ensures TotalPreorder(ShownBefore)
  {
    forall x: Attachment, y: Attachment
      ensures ShownBefore(x, y) || ShownBefore(y, x)
    {
      StringLeTotal(x.id, y.id);
    }
    forall x, y, z | ShownBefore(x, y) && ShownBefore(y, z)
      ensures ShownBefore(x, z)
    {
      if x.createdAt == y.createdAt == z.createdAt {
        StringLeTransitive(x.id, y.id, z.id);
      }
    }
  }

  lemma ShownAntisymmetric(a: Attachment, b: Attachment)
    requires ShownBefore(a, b) && ShownBefore(b, a)
    ensures a.createdAt == b.createdAt && a.id == b.id
  {
    StringLeAntisymmetric(a.id, b.id);
  }

  predicate IsShown(settlement: string, parties: seq<PeerId>, a: Attachment) {
    a.settlement == settlement && a.author in parties
  }

  /** The settlement's attachments by its parties: each once, oldest first, then by id. */
  ghost predicate IsListing(index: Index, settlement: string, parties: seq<PeerId>, found: seq<Attachment>) {
    && SortedBy(found, ShownBefore)
    && Distinct(found)
    && forall a :: a in found <==> a.id in index && index[a.id] == a && IsShown(settlement, parties, a)
  }

  // ---- The registry ----

  class AttachmentRegistry {
    var index: Index
    const crypto: Crypto

    ghost predicate Valid()
      reads this
    {
      Keyed(index)
    }

    constructor (crypto: Crypto)
      ensures this.crypto == crypto && index == DeliverAll(crypto, []) && Valid()
    {
      this.crypto := crypto;
      index := map[];
    }

    method ApplyPublish(e: Publish) returns (r: Result<string, ContentError>)
      requires Valid()
      modifies this`index
      ensures Valid() && index == Deliver(crypto, old(index), e)
      ensures r.Ok? <==> Refusal(crypto, old(index), e).None?
      ensures r.Ok? ==> r.value == e.attachment.id && index[e.attachment.id] == e.attachment
      ensures r.Err? ==> Refusal(crypto, old(index), e) == Some(r.error) && index == old(index)
    {
      var verified := VerifyPublish(crypto, e);
      if verified.Err? {
        return Err(verified.error);
      }
      var validated := Validate(e.attachment);
      if validated.Err? {
        return Err(validated.error);
      }
      if e.attachment.id in index {
        return Err(DuplicateAttachmentId);
      }
      index := index[e.attachment.id := e.attachment];
      return Ok(e.attachment.id);
    }

    /** Every record held, in whatever order the store yields them. */
    method All() returns (all: seq<Attachment>)
      requires Valid()
      ensures Distinct(all) && forall a :: a in all <==> a.id in index && index[a.id] == a
    {
      all := [];
      var rest := index.Keys;
      while rest != {}
        invariant rest <= index.Keys && Distinct(all)
        invariant forall a :: a in all <==> a.id in index && a.id !in rest && index[a.id] == a
        decreases |rest|
      {
        var id :| id in rest;
        all := all + [index[id]];
        rest := rest - {id};
      }
    }

    method FindBySettlement(settlement: string, parties: seq<PeerId>) returns (found: seq<Attachment>)
      requires Valid()
      ensures IsListing(index, settlement, parties, found)
    {
      var all := All();
      var kept := [];
      for i := 0 to |all|
        invariant Distinct(kept)
        invariant forall a :: a in kept <==> a in all[..i] && IsShown(settlement, parties, a)
      {
        assert all[i] !in all[..i];
        if IsShown(settlement, parties, all[i]) {
          kept := kept + [all[i]];
        }
        assert all[..i + 1] == all[..i] + [all[i]];
      }
      assert all[..|all|] == all;
      ShownOrder();
      found := Sort(kept, ShownBefore);
      Rearranged(kept, found);
    }
  }

  method VerifyPublish(crypto: Crypto, e: Publish) returns (r: Result<(), ContentError>)
    ensures r.Ok? <==>
      && crypto.peerOf(e.attachment.authorPublicKey) == Some(e.attachment.author)
      && crypto.verify(e.attachment.authorPublicKey, e.attachment, e.signature)
    ensures r.Err? ==> r.error == if crypto.peerOf(e.attachment.authorPublicKey) in {None, Some(e.attachment.author)}
                                  then InvalidSignature else NotAParty
  {
    var expected := crypto.peerOf(e.attachment.authorPublicKey);
    if expected.None? {
      return Err(InvalidSignature);
    }
    if expected.value != e.attachment.author {
      return Err(NotAParty);
    }
    if !crypto.verify(e.attachment.authorPublicKey, e.attachment, e.signature) {
      return Err(InvalidSignature);
    }
    return Ok(());
  }

  method Validate(a: Attachment) returns (r: Result<(), ContentError>)
    ensures r.Ok? <==> 0 < a.sizeBytes <= MAX_ATTACHMENT_BYTES && |a.caption| <= MAX_CAPTION_CHARS && a.id != ""
    ensures r.Err? ==> r.error == if 0 < a.sizeBytes <= MAX_ATTACHMENT_BYTES then MalformedAttachment else TooLarge
  {
    if a.sizeBytes == 0 || a.sizeBytes > MAX_ATTACHMENT_BYTES {
      return Err(TooLarge);
    }
    if |a.caption| > MAX_CAPTION_CHARS {
      return Err(MalformedAttachment);
    }
    if a.id == "" {
      return Err(MalformedAttachment);
    }
    return Ok(());
  }

  ghost predicate Keyed(index: Index) {
    forall id :: id in index ==> index[id].id == id
  }

  lemma {:induction false} DeliveredIsKeyed(crypto: Crypto, es: seq<Publish>)
    ensures Keyed(DeliverAll(crypto, es))
  {
    if es != [] {
      DeliveredIsKeyed(crypto, es[..|es| - 1]);
    }
  }

  /** Two listings of one index are the same list, however the store yields its records. */
  lemma ListingIsUnique(index: Index, settlement: string, parties: seq<PeerId>, a: seq<Attachment>, b: seq<Attachment>)
    requires Keyed(index)
    requires IsListing(index, settlement, parties, a) && IsListing(index, settlement, parties, b)
    ensures a == b
  {
    forall x, y | x in a && y in a && ShownBefore(x, y) && ShownBefore(y, x)
      ensures x == y
    {
      ShownAntisymmetric(x, y);
    }
    hide ShownBefore;
    SortedUnique(a, b, ShownBefore);
  }

  // ---- What delivery order can and cannot change ----

  /** The first acceptable publication under `id`, if there is one. */
  function FirstWriter(crypto: Crypto, es: seq<Publish>, id: string): Option<Attachment> {
    if es == [] then None
    else if Acceptable(crypto, es[0]) && es[0].attachment.id == id then Some(es[0].attachment)
    else FirstWriter(crypto, es[1..], id)
  }

  lemma {:induction false} FirstWriterAppend(crypto: Crypto, es: seq<Publish>, e: Publish, id: string)
    ensures FirstWriter(crypto, es + [e], id) ==
      if FirstWriter(crypto, es, id).Some? then FirstWriter(crypto, es, id) else FirstWriter(crypto, [e], id)
  {
    if es == [] {
      assert es + [e] == [e];
    } else {
      assert (es + [e])[1..] == es[1..] + [e];
      FirstWriterAppend(crypto, es[1..], e, id);
    }
  }

  /** After any deliveries, each id holds the first acceptable publication that named it, and nothing else is held. */
  lemma {:induction false} HoldsFirstWriters(crypto: Crypto, es: seq<Publish>, id: string)
    ensures id in DeliverAll(crypto, es) <==> FirstWriter(crypto, es, id).Some?
    ensures id in DeliverAll(crypto, es) ==> Some(DeliverAll(crypto, es)[id]) == FirstWriter(crypto, es, id)
  {
    if es != [] {
      var before, e := es[..|es| - 1], es[|es| - 1];
      HoldsFirstWriters(crypto, before, id);
      FirstWriterAppend(crypto, before, e, id);
      assert es == before + [e];
      assert [e][1..] == [];
    }
  }

  lemma {:induction false} FirstWriterIsDelivered(crypto: Crypto, es: seq<Publish>, id: string)
    ensures FirstWriter(crypto, es, id).Some? <==> exists e :: e in es && Acceptable(crypto, e) && e.attachment.id == id
    ensures FirstWriter(crypto, es, id).Some? ==>
      exists e :: e in es && Acceptable(crypto, e) && e.attachment.id == id &&
                  FirstWriter(crypto, es, id) == Some(e.attachment)
  {
    if es != [] {
      FirstWriterIsDelivered(crypto, es[1..], id);
      assert forall e :: e in es <==> e == es[0] || e in es[1..];
    }
  }

  /** Both would be stored, under one id. */
  predicate Clash(crypto: Crypto, d: Publish, e: Publish) {
    Acceptable(crypto, d) && Acceptable(crypto, e) && d.attachment.id == e.attachment.id
  }

  /** No two acceptable publications use one id for different records. */
  ghost predicate IdsAgree(crypto: Crypto, es: seq<Publish>) {
    forall d, e :: d in es && e in es && Clash(crypto, d, e) ==> d.attachment == e.attachment
  }

  ghost predicate SameEvents(es: seq<Publish>, fs: seq<Publish>) {
    forall e :: e in es <==> e in fs
  }

  lemma AgreeingOrdersConverge(crypto: Crypto, es: seq<Publish>, fs: seq<Publish>)
    requires IdsAgree(crypto, es) && SameEvents(es, fs)
    ensures DeliverAll(crypto, es) == DeliverAll(crypto, fs)
  {
    hide Acceptable, DeliverAll;
    var a, b := DeliverAll(crypto, es), DeliverAll(crypto, fs);
    forall id
      ensures id in a <==> id in b
      ensures id in a ==> a[id] == b[id]
    {
      HoldsFirstWriters(crypto, es, id);
      HoldsFirstWriters(crypto, fs, id);
      FirstWriterIsDelivered(crypto, es, id);
      FirstWriterIsDelivered(crypto, fs, id);
    }
  }

  /** Whoever is heard first keeps the id. */
  lemma FirstHeardWins(crypto: Crypto, e: Publish, es: seq<Publish>)
    requires Acceptable(crypto, e)
    ensures e.attachment.id in DeliverAll(crypto, [e] + es)
    ensures DeliverAll(crypto, [e] + es)[e.attachment.id] == e.attachment
  {
    HoldsFirstWriters(crypto, [e] + es, e.attachment.id);
  }

  /**
   Every order and repetition of the same publications leaves the same index if and only if no two acceptable ones
   disagree about an id.
   */
  lemma OrderIsIrrelevantIff(crypto: Crypto, es: seq<Publish>)
    ensures (forall fs :: SameEvents(es, fs) ==> DeliverAll(crypto, fs) == DeliverAll(crypto, es)) <==>
            IdsAgree(crypto, es)
  {
    hide Acceptable, DeliverAll;
    if IdsAgree(crypto, es) {
      forall fs | SameEvents(es, fs)
        ensures DeliverAll(crypto, fs) == DeliverAll(crypto, es)
      {
        AgreeingOrdersConverge(crypto, es, fs);
      }
    } else {
      var d, e :| d in es && e in es && Clash(crypto, d, e) && d.attachment != e.attachment;
      FirstHeardWins(crypto, d, es);
      FirstHeardWins(crypto, e, es);
      assert SameEvents(es, [d] + es) && SameEvents(es, [e] + es);
    }
  }

  /** A receipt of four kilobytes on settlement "s-1", under the id its author chose. */
  function Receipt(author: PeerId, key: PublicKey, cid: Cid, caption: string): Attachment {
    Attachment("att-1", "s-1", author, key, cid, Png, 4096, caption, 1000)
  }

  /** Two receipts signed by one author under one id: which one a node keeps is which it heard first. */
  lemma TwoReceiptsUnderOneId(crypto: Crypto, author: PeerId, key: PublicKey, cid: Cid, first: Signature,
                              second: Signature)
    requires crypto.peerOf(key) == Some(author)
    requires crypto.verify(key, Receipt(author, key, cid, "paid"), first)
    requires crypto.verify(key, Receipt(author, key, cid, "refunded"), second)
    ensures
      var paid := Publish(Receipt(author, key, cid, "paid"), first);
      var refunded := Publish(Receipt(author, key, cid, "refunded"), second);
      && DeliverAll(crypto, [paid, refunded]) == map["att-1" := paid.attachment]
      && DeliverAll(crypto, [refunded, paid]) == map["att-1" := refunded.attachment]
      && paid.attachment != refunded.attachment
  {
    var paid := Publish(Receipt(author, key, cid, "paid"), first);
    var refunded := Publish(Receipt(author, key, cid, "refunded"), second);
    assert |"paid"| != |"refunded"|;
    TwoWriters(crypto, paid, refunded);
    TwoWriters(crypto, refunded, paid);
  }

  lemma TwoWriters(crypto: Crypto, d: Publish, e: Publish)
    requires Clash(crypto, d, e)
    ensures DeliverAll(crypto, [d, e]) == map[d.attachment.id := d.attachment]
  {
    assert [d, e][..1] == [d] && [d][..0] == [];
    assert DeliverAll(crypto, [d]) == map[d.attachment.id := d.attachment];
  }

  /** A stored record is never altered or dropped by what arrives later. */
  lemma {:induction false} RecordsAreImmutable(crypto: Crypto, es: seq<Publish>, n: nat, id: string)
    requires n <= |es| && id in DeliverAll(crypto, es[..n])
    ensures id in DeliverAll(crypto, es) && DeliverAll(crypto, es)[id] == DeliverAll(crypto, es[..n])[id]
  {
    if n == |es| {
      assert es[..n] == es;
    } else {
      var before := es[..|es| - 1];
      assert before[..n] == es[..n];
      RecordsAreImmutable(crypto, before, n, id);
    }
  }

  /** Everything listed for a settlement was signed by a party to it, under the key that party's id derives from. */
  lemma ListedEvidenceIsGenuine(crypto: Crypto, es: seq<Publish>, settlement: string, parties: seq<PeerId>,
                                found: seq<Attachment>, a: Attachment)
    requires IsListing(DeliverAll(crypto, es), settlement, parties, found) && a in found
    ensures a.settlement == settlement && a.author in parties
    ensures crypto.peerOf(a.authorPublicKey) == Some(a.author)
    ensures exists e :: e in es && e.attachment == a && crypto.verify(a.authorPublicKey, a, e.signature)
    ensures 0 < a.sizeBytes <= MAX_ATTACHMENT_BYTES && |a.caption| <= MAX_CAPTION_CHARS && a.id != ""
  {
    hide DeliverAll;
    HoldsFirstWriters(crypto, es, a.id);
    FirstWriterIsDelivered(crypto, es, a.id);
  }

  /** And everything a party published for it, acceptable and first under its id, is listed. */
  lemma EvidenceIsListedIff(crypto: Crypto, es: seq<Publish>, settlement: string, parties: seq<PeerId>,
                            found: seq<Attachment>, a: Attachment)
    requires IsListing(DeliverAll(crypto, es), settlement, parties, found)
    ensures a in found <==>
            FirstWriter(crypto, es, a.id) == Some(a) && a.settlement == settlement && a.author in parties
  {
    hide DeliverAll;
    HoldsFirstWriters(crypto, es, a.id);
  }

  /** Listed oldest first, and by id among those of one moment. */
  lemma OldestFirst(index: Index, settlement: string, parties: seq<PeerId>, found: seq<Attachment>, i: nat, j: nat)
    requires Keyed(index) && IsListing(index, settlement, parties, found) && i < j < |found|
    ensures found[i].createdAt <= found[j].createdAt
    ensures found[i].createdAt == found[j].createdAt ==> StringLt(found[i].id, found[j].id)
  {
    assert ShownBefore(found[i], found[j]);
    assert found[i] in found && found[j] in found;
  }

  /**
   Two nodes that heard the same publications, in any order and any number of times, show the same evidence for a
   settlement, as long as no id was used twice for different records.
   */
  lemma NodesShowTheSameEvidence(crypto: Crypto, es: seq<Publish>, fs: seq<Publish>, settlement: string,
                                 parties: seq<PeerId>, a: seq<Attachment>, b: seq<Attachment>)
    requires IdsAgree(crypto, es) && SameEvents(es, fs)
    requires IsListing(DeliverAll(crypto, es), settlement, parties, a)
    requires IsListing(DeliverAll(crypto, fs), settlement, parties, b)
    ensures a == b
  {
    hide IsListing, DeliverAll;
    AgreeingOrdersConverge(crypto, es, fs);
    DeliveredIsKeyed(crypto, es);
    ListingIsUnique(DeliverAll(crypto, es), settlement, parties, a, b);
  }
}
