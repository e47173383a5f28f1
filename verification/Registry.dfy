/**
 The replicated index of advertisements: signed edits by the merchant, and the
 liquidity that reservations take and give back.
 */
module Registry {
  import opened Wrappers
  import opened Records
  import Query

  type Signature = string

  datatype AdvertisementCreate = AdvertisementCreate(
    id: string,
    merchant: PeerId,
    merchantPublicKey: PublicKey,
    assetMint: string,
    direction: Direction,
    fiatCurrency: string,
    minTrade: Amount,
    maxTrade: Amount,
    initialLiquidity: Amount,
    pricing: PricingModel,
    paymentMethods: seq<PaymentMethodRef>,
    timestamp: nat)

  /** What a merchant signs. The constructor is the domain tag each preimage starts with. */
  datatype Message =
    | Create(create: AdvertisementCreate)
    | StatusSet(id: string, merchant: PeerId, status: AdvertisementStatus, timestamp: nat)
    | TermsUpdate(id: string, merchant: PeerId, minTrade: Amount, maxTrade: Amount,
                  paymentMethods: seq<PaymentMethodRef>, timestamp: nat)
    | PriceUpdate(id: string, merchant: PeerId, pricing: PricingModel, timestamp: nat)

  /** Signature checking, and the peer id a public key derives to, if it is a key at all. */
  datatype Crypto = Crypto(verify: (PublicKey, Message, Signature) -> bool, peerOf: PublicKey -> Option<PeerId>)

  datatype Error =
    | InvalidSignature
    | UnauthorizedUpdate
    | DuplicateAdvertisementId
    | MalformedAdvertisement
    | AdvertisementNotFound
    | InsufficientLiquidity
    | AdvertisementDeleted
    | UnusableTerms

  datatype Op =
    | Signed(message: Message, signature: Signature)
    | Reserve(reserved: string, amount: Amount, now: nat)
    | Release(released: string, amount: Amount, now: nat)

  type Book = map<string, Advertisement>

  /** The advertisement an operation is about. */
  function Target(op: Op): string {
    match op
    case Signed(Create(create), _) => create.id
    case Signed(message, _) => message.id
    case Reserve(id, _, _) => id
    case Release(id, _, _) => id
  }

  // ---- The checks ----

  /** Terms a buyer can trade against: a way to pay that is the merchant's to offer, and a floor below the ceiling. */
  predicate Usable(minTrade: Amount, maxTrade: Amount, methods: seq<PaymentMethodRef>, merchant: PeerId) {
    && methods != []
    && (forall i :: 0 <= i < |methods| ==> methods[i].IsSelectableBy(merchant))
    && minTrade.decimals == maxTrade.decimals
    && minTrade.baseUnits <= maxTrade.baseUnits
  }

  function CheckTerms(minTrade: Amount, maxTrade: Amount, methods: seq<PaymentMethodRef>, merchant: PeerId):
    Result<(), Error>
  {
    if Usable(minTrade, maxTrade, methods, merchant) then Ok(()) else Err(UnusableTerms)
  }

  /** The merchant a creation claims to be derives from the key it carries, and that key signed it. */
  function VerifyCreate(crypto: Crypto, create: AdvertisementCreate, signature: Signature): Result<(), Error> {
    match crypto.peerOf(create.merchantPublicKey)
    case None => Err(InvalidSignature)
    case Some(peer) =>
      if peer != create.merchant then Err(UnauthorizedUpdate)
      else if !crypto.verify(create.merchantPublicKey, Create(create), signature) then Err(InvalidSignature)
      else Ok(())
  }

  /** What every signed edit must pass, in the order the failures are reported. */
  function Authorize(crypto: Crypto, book: Book, message: Message, signature: Signature): Result<Advertisement, Error>
    requires !message.Create?
  {
    if message.id !in book then Err(AdvertisementNotFound)
    else
      var ad := book[message.id];
      if !crypto.verify(ad.merchantPublicKey, message, signature) then Err(InvalidSignature)
      else if ad.merchant != message.merchant then Err(UnauthorizedUpdate)
      else if ad.status == Deleted then Err(AdvertisementDeleted)
      else Ok(ad)
  }

  // ---- The effect of each operation: the record it leaves under its target, or why it is refused ----

  function Created(create: AdvertisementCreate): Advertisement {
    Advertisement(create.id, create.merchant, create.merchantPublicKey, create.assetMint, create.direction,
                  create.fiatCurrency, create.minTrade, create.maxTrade, create.initialLiquidity, create.pricing,
                  create.paymentMethods, Active, create.timestamp, create.timestamp)
  }

  function CreateEffect(crypto: Crypto, book: Book, create: AdvertisementCreate, signature: Signature):
    Result<Advertisement, Error>
  {
    var verified := VerifyCreate(crypto, create, signature);
    if verified.Err? then Err(verified.error)
    else if create.id in book then Err(DuplicateAdvertisementId)
    else
      var terms := CheckTerms(create.minTrade, create.maxTrade, create.paymentMethods, create.merchant);
      if terms.Err? then Err(terms.error) else Ok(Created(create))
  }

  function EditEffect(ad: Advertisement, message: Message): Result<Advertisement, Error>
    requires !message.Create?
  {
    match message
    case StatusSet(_, _, status, timestamp) =>
      if status == Active && ad.availableLiquidity.baseUnits == 0 then Err(InsufficientLiquidity)
      else Ok(ad.(status := status, updatedAt := timestamp))
    case TermsUpdate(_, merchant, minTrade, maxTrade, methods, timestamp) =>
      var terms := CheckTerms(minTrade, maxTrade, methods, merchant);
      if terms.Err? then Err(terms.error)
      else Ok(ad.(minTrade := minTrade, maxTrade := maxTrade, paymentMethods := methods, updatedAt := timestamp))
    case PriceUpdate(_, _, pricing, timestamp) =>
      Ok(ad.(pricing := pricing, updatedAt := timestamp))
  }

  function SignedEffect(crypto: Crypto, book: Book, message: Message, signature: Signature):
    Result<Advertisement, Error>
  {
    if message.Create? then CreateEffect(crypto, book, message.create, signature)
    else
      var ad := Authorize(crypto, book, message, signature);
      if ad.Err? then Err(ad.error) else EditEffect(ad.value, message)
  }

  function ReserveEffect(book: Book, id: string, amount: Amount, now: nat): Result<Advertisement, Error> {
    if id !in book then Err(AdvertisementNotFound)
    else
      var remaining := book[id].availableLiquidity.CheckedSub(amount);
      if remaining.None? then Err(InsufficientLiquidity)
      else
        Ok(book[id].(
           availableLiquidity := remaining.value,
           status := if remaining.value.baseUnits == 0 then Disabled else book[id].status,
           updatedAt := now))
  }

  function ReleaseEffect(book: Book, id: string, amount: Amount, now: nat): Result<Advertisement, Error> {
    if id !in book then Err(AdvertisementNotFound)
    else
      var total := book[id].availableLiquidity.CheckedAdd(amount);
      if total.None? then Err(MalformedAdvertisement)
      else Ok(book[id].(availableLiquidity := total.value, updatedAt := now))
  }

  function Effect(crypto: Crypto, book: Book, op: Op): Result<Advertisement, Error> {
    match op
    case Signed(message, signature) => SignedEffect(crypto, book, message, signature)
    case Reserve(id, amount, now) => ReserveEffect(book, id, amount, now)
    case Release(id, amount, now) => ReleaseEffect(book, id, amount, now)
  }

  /** A refused operation changes nothing; an accepted one replaces its target's record. */
  function Step(crypto: Crypto, book: Book, op: Op): Book {
    var effect := Effect(crypto, book, op);
    if effect.Err? then book else book[Target(op) := effect.value]
  }

  function Run(crypto: Crypto, ops: seq<Op>): Book {
    if ops == [] then map[] else Step(crypto, Run(crypto, ops[..|ops| - 1]), ops[|ops| - 1])
  }

  // ---- The index itself ----

  class AdvertisementRegistry {
    var ads: Book
    const crypto: Crypto

    constructor (crypto: Crypto)
      ensures this.crypto == crypto && ads == Run(crypto, [])
    {
      this.crypto := crypto;
      ads := map[];
    }

    method ApplyCreate(create: AdvertisementCreate, signature: Signature) returns (r: Result<string, Error>)
      modifies this`ads
      ensures ads == Step(crypto, old(ads), Signed(Create(create), signature))
      ensures r.Ok? <==> CreateEffect(crypto, old(ads), create, signature).Ok?
      ensures r.Ok? ==> r.value == create.id && create.id in ads
      ensures r.Err? ==> r.error == CreateEffect(crypto, old(ads), create, signature).error
    {
      var verified := VerifyCreate(crypto, create, signature);
      if verified.Err? {
        return Err(verified.error);
      }
      if create.id in ads {
        return Err(DuplicateAdvertisementId);
      }
      var terms := CheckedTerms(create.minTrade, create.maxTrade, create.paymentMethods, create.merchant);
      if terms.Err? {
        return Err(terms.error);
      }
      ads := ads[create.id := Created(create)];
      return Ok(create.id);
    }

    method ApplyStatusSet(message: Message, signature: Signature) returns (r: Result<(), Error>)
      requires message.StatusSet?
      modifies this`ads
      ensures ads == Step(crypto, old(ads), Signed(message, signature))
      ensures r.Ok? <==> SignedEffect(crypto, old(ads), message, signature).Ok?
      ensures r.Err? ==> r.error == SignedEffect(crypto, old(ads), message, signature).error
    {
      var authorized := Authorize(crypto, ads, message, signature);
      if authorized.Err? {
        return Err(authorized.error);
      }
      var ad := authorized.value;
      if message.status == Active && ad.availableLiquidity.baseUnits == 0 {
        return Err(InsufficientLiquidity);
      }
      ads := ads[message.id := ad.(status := message.status, updatedAt := message.timestamp)];
      return Ok(());
    }

    method ApplyTermsUpdate(message: Message, signature: Signature) returns (r: Result<(), Error>)
      requires message.TermsUpdate?
      modifies this`ads
      ensures ads == Step(crypto, old(ads), Signed(message, signature))
      ensures r.Ok? <==> SignedEffect(crypto, old(ads), message, signature).Ok?
      ensures r.Err? ==> r.error == SignedEffect(crypto, old(ads), message, signature).error
    {
      var authorized := Authorize(crypto, ads, message, signature);
      if authorized.Err? {
        return Err(authorized.error);
      }
      var terms := CheckedTerms(message.minTrade, message.maxTrade, message.paymentMethods, message.merchant);
      if terms.Err? {
        return Err(terms.error);
      }
      var ad := authorized.value;
      ads := ads[message.id := ad.(minTrade := message.minTrade, maxTrade := message.maxTrade,
                                   paymentMethods := message.paymentMethods, updatedAt := message.timestamp)];
      return Ok(());
    }

    method ApplyPricingUpdate(message: Message, signature: Signature) returns (r: Result<(), Error>)
      requires message.PriceUpdate?
      modifies this`ads
      ensures ads == Step(crypto, old(ads), Signed(message, signature))
      ensures r.Ok? <==> SignedEffect(crypto, old(ads), message, signature).Ok?
      ensures r.Err? ==> r.error == SignedEffect(crypto, old(ads), message, signature).error
    {
      var authorized := Authorize(crypto, ads, message, signature);
      if authorized.Err? {
        return Err(authorized.error);
      }
      ads := ads[message.id := authorized.value.(pricing := message.pricing, updatedAt := message.timestamp)];
      return Ok(());
    }

    method ReserveLiquidity(id: string, amount: Amount, now: nat) returns (r: Result<(), Error>)
      modifies this`ads
      ensures ads == Step(crypto, old(ads), Reserve(id, amount, now))
      ensures r.Ok? <==> ReserveEffect(old(ads), id, amount, now).Ok?
      ensures r.Err? ==> r.error == ReserveEffect(old(ads), id, amount, now).error
    {
      if id !in ads {
        return Err(AdvertisementNotFound);
      }
      var ad := ads[id];
      var remaining := ad.availableLiquidity.CheckedSub(amount);
      if remaining.None? {
        return Err(InsufficientLiquidity);
      }
      ad := ad.(availableLiquidity := remaining.value);
      if remaining.value.baseUnits == 0 {
        ad := ad.(status := Disabled);
      }
      ads := ads[id := ad.(updatedAt := now)];
      return Ok(());
    }

    method ReleaseLiquidity(id: string, amount: Amount, now: nat) returns (r: Result<(), Error>)
      modifies this`ads
      ensures ads == Step(crypto, old(ads), Release(id, amount, now))
      ensures r.Ok? <==> ReleaseEffect(old(ads), id, amount, now).Ok?
      ensures r.Err? ==> r.error == ReleaseEffect(old(ads), id, amount, now).error
    {
      if id !in ads {
        return Err(AdvertisementNotFound);
      }
      var total := ads[id].availableLiquidity.CheckedAdd(amount);
      if total.None? {
        return Err(MalformedAdvertisement);
      }
      ads := ads[id := ads[id].(availableLiquidity := total.value, updatedAt := now)];
      return Ok(());
    }
  }

  /** Scans the payment methods, then compares the bounds. */
  method CheckedTerms(minTrade: Amount, maxTrade: Amount, methods: seq<PaymentMethodRef>, merchant: PeerId)
    returns (r: Result<(), Error>)
    ensures r == CheckTerms(minTrade, maxTrade, methods, merchant)
  {
    if methods == [] {
      return Err(UnusableTerms);
    }
    for i := 0 to |methods|
      invariant forall j :: 0 <= j < i ==> methods[j].IsSelectableBy(merchant)
    {
      if !methods[i].IsSelectableBy(merchant) {
        return Err(UnusableTerms);
      }
    }
    if minTrade.decimals != maxTrade.decimals || minTrade.baseUnits > maxTrade.baseUnits {
      return Err(UnusableTerms);
    }
    return Ok(());
  }

  // ---- What every reachable index satisfies ----

  /** Its own key's merchant, a rail that is built in or the merchant's own, and a floor no higher than the ceiling. */
  predicate WellFormed(crypto: Crypto, id: string, ad: Advertisement) {
    && ad.id == id
    && crypto.peerOf(ad.merchantPublicKey) == Some(ad.merchant)
    && ad.paymentMethods != []
    && (forall i :: 0 <= i < |ad.paymentMethods| ==>
          ad.paymentMethods[i].Builtin? || ad.paymentMethods[i].owner == ad.merchant)
    && ad.minTrade.decimals == ad.maxTrade.decimals
    && ad.minTrade.baseUnits <= ad.maxTrade.baseUnits
  }

  /** Every advertisement ever held is tradeable and belongs to the merchant whose key it carries. */
  lemma {:induction false} EveryRecordIsWellFormed(crypto: Crypto, ops: seq<Op>, id: string)
    requires id in Run(crypto, ops)
    ensures WellFormed(crypto, id, Run(crypto, ops)[id])
  {
    if ops != [] {
      var before := Run(crypto, ops[..|ops| - 1]);
      if id in before {
        EveryRecordIsWellFormed(crypto, ops[..|ops| - 1], id);
      }
    }
  }

  /** What an advertisement keeps for life. */
  predicate SameIdentity(a: Advertisement, b: Advertisement) {
    && a.id == b.id
    && a.merchant == b.merchant
    && a.merchantPublicKey == b.merchantPublicKey
    && a.assetMint == b.assetMint
    && a.direction == b.direction
    && a.fiatCurrency == b.fiatCurrency
    && a.createdAt == b.createdAt
    && a.availableLiquidity.decimals == b.availableLiquidity.decimals
  }

  lemma StepKeepsIdentity(crypto: Crypto, book: Book, op: Op, id: string)
    requires id in book
    ensures id in Step(crypto, book, op)
    ensures SameIdentity(book[id], Step(crypto, book, op)[id])
  {
  }

  /** No operation removes an advertisement or changes its identity, over any continuation of any run. */
  lemma {:induction false} IdentityIsPermanent(crypto: Crypto, ops: seq<Op>, n: nat, id: string)
    requires n <= |ops| && id in Run(crypto, ops[..n])
    ensures id in Run(crypto, ops)
    ensures SameIdentity(Run(crypto, ops[..n])[id], Run(crypto, ops)[id])
  {
    hide Step;
    if n < |ops| {
      var last := |ops| - 1;
      assert ops[..last][..n] == ops[..n];
      IdentityIsPermanent(crypto, ops[..last], n, id);
      StepKeepsIdentity(crypto, Run(crypto, ops[..last]), ops[last], id);
    } else {
      assert ops[..n] == ops;
    }
  }

  // ---- Why an operation is refused ----

  /** A creation is refused for the first of four reasons, and accepted when there is none. */
  lemma CreationAnswers(crypto: Crypto, book: Book, create: AdvertisementCreate, signature: Signature)
    ensures
      var peer, r := crypto.peerOf(create.merchantPublicKey), SignedEffect(crypto, book, Create(create), signature);
      var genuine :=
        peer == Some(create.merchant) && crypto.verify(create.merchantPublicKey, Create(create), signature);
      var usable :=
        && create.paymentMethods != []
        && (forall i :: 0 <= i < |create.paymentMethods| ==>
              create.paymentMethods[i].Builtin? || create.paymentMethods[i].owner == create.merchant)
        && create.minTrade.decimals == create.maxTrade.decimals
        && create.minTrade.baseUnits <= create.maxTrade.baseUnits;
      && (r == Err(UnauthorizedUpdate) <==> peer.Some? && peer.value != create.merchant)
      && (r == Err(InvalidSignature) <==> peer.None? || (peer == Some(create.merchant) && !genuine))
      && (r == Err(DuplicateAdvertisementId) <==> genuine && create.id in book)
      && (r == Err(UnusableTerms) <==> genuine && create.id !in book && !usable)
      && (r.Ok? <==> genuine && create.id !in book && usable)
  {
  }

  /** So is an edit, for one of four that concern the record and two that concern what it asks for. */
  lemma EditAnswers(crypto: Crypto, book: Book, message: Message, signature: Signature)
    requires !message.Create?
    ensures
      var r := SignedEffect(crypto, book, message, signature);
      if message.id !in book then r == Err(AdvertisementNotFound)
      else
        var ad := book[message.id];
        if !crypto.verify(ad.merchantPublicKey, message, signature) then r == Err(InvalidSignature)
        else if ad.merchant != message.merchant then r == Err(UnauthorizedUpdate)
        else if ad.status == Deleted then r == Err(AdvertisementDeleted)
        else
          && (r == Err(InsufficientLiquidity) <==>
              message.StatusSet? && message.status == Active && ad.availableLiquidity.baseUnits == 0)
          && (r.Err? && r.error != InsufficientLiquidity ==> message.TermsUpdate? && r.error == UnusableTerms)
          && (message.PriceUpdate? ==> r.Ok?)
  {
  }

  /** Liquidity moves unless the record is missing, the precisions differ, or the amount leaves the word. */
  lemma MovementAnswers(book: Book, id: string, amount: Amount, now: nat)
    ensures
      var taken, given := ReserveEffect(book, id, amount, now), ReleaseEffect(book, id, amount, now);
      if id !in book then taken == Err(AdvertisementNotFound) && given == Err(AdvertisementNotFound)
      else
        var held := book[id].availableLiquidity;
        && (taken == Err(InsufficientLiquidity) <==> taken.Err?)
        && (taken.Ok? <==> amount.decimals == held.decimals && amount.baseUnits <= held.baseUnits)
        && (given == Err(MalformedAdvertisement) <==> given.Err?)
        && (given.Ok? <==>
            amount.decimals == held.decimals && amount.baseUnits + held.baseUnits < 0x1_0000_0000_0000_0000)
  {
  }

  // ---- Where each part of a record came from ----

  datatype Part = Identity | Price | Terms | Status | LastUpdate

  /** A reservation of everything that is left. */
  predicate Drains(book: Book, op: Op, id: string) {
    op.Reserve? && op.reserved == id && id in book && book[id].availableLiquidity == op.amount
  }

  /** The operations that write a part of the record under `id`, when they are accepted. */
  predicate Sets(book: Book, op: Op, id: string, part: Part) {
    && Target(op) == id
    && match part
       case Identity => op.Signed? && op.message.Create?
       case Price => op.Signed? && (op.message.Create? || op.message.PriceUpdate?)
       case Terms => op.Signed? && (op.message.Create? || op.message.TermsUpdate?)
       case Status => (op.Signed? && (op.message.Create? || op.message.StatusSet?)) || Drains(book, op, id)
       case LastUpdate => true
  }

  predicate Accepted(crypto: Crypto, ops: seq<Op>, k: nat)
    requires k < |ops|
  {
    Effect(crypto, Run(crypto, ops[..k]), ops[k]).Ok?
  }

  /** The last accepted operation of the run that wrote this part. */
  ghost predicate IsLastSetter(crypto: Crypto, ops: seq<Op>, id: string, part: Part, k: nat) {
    && k < |ops|
    && Accepted(crypto, ops, k)
    && Sets(Run(crypto, ops[..k]), ops[k], id, part)
    && (forall m :: k < m < |ops| && Accepted(crypto, ops, m) ==> !Sets(Run(crypto, ops[..m]), ops[m], id, part))
  }

  predicate Carries(message: Message, part: Part, ad: Advertisement) {
    match part
    case Identity =>
      && message.Create?
      && ad.id == message.create.id
      && ad.merchant == message.create.merchant
      && ad.merchantPublicKey == message.create.merchantPublicKey
      && ad.assetMint == message.create.assetMint
      && ad.direction == message.create.direction
      && ad.fiatCurrency == message.create.fiatCurrency
      && ad.createdAt == message.create.timestamp
      && ad.availableLiquidity.decimals == message.create.initialLiquidity.decimals
    case Price =>
      if message.Create? then ad.pricing == message.create.pricing
      else message.PriceUpdate? && ad.pricing == message.pricing
    case Terms =>
      if message.Create? then
        ad.minTrade == message.create.minTrade && ad.maxTrade == message.create.maxTrade &&
        ad.paymentMethods == message.create.paymentMethods
      else
        message.TermsUpdate? && ad.minTrade == message.minTrade && ad.maxTrade == message.maxTrade &&
        ad.paymentMethods == message.paymentMethods
    case Status =>
      if message.Create? then ad.status == Active else message.StatusSet? && ad.status == message.status
    case LastUpdate =>
      ad.updatedAt == if message.Create? then message.create.timestamp else message.timestamp
  }

  function SignerOf(message: Message): PeerId {
    if message.Create? then message.create.merchant else message.merchant
  }

  /**
   The merchant signed for this value under the record's own key, or a draining reservation disabled the record, or the
   liquidity moved at that time.
   */
  predicate Explains(crypto: Crypto, op: Op, part: Part, ad: Advertisement) {
    if op.Signed? then
      && crypto.verify(ad.merchantPublicKey, op.message, op.signature)
      && SignerOf(op.message) == ad.merchant
      && Carries(op.message, part, ad)
    else (part == Status && ad.status == Disabled) || (part == LastUpdate && ad.updatedAt == op.now)
  }

  lemma SetterExplains(crypto: Crypto, book: Book, op: Op, id: string, part: Part)
    requires Effect(crypto, book, op).Ok? && Sets(book, op, id, part)
    ensures id in Step(crypto, book, op)
    ensures Explains(crypto, op, part, Step(crypto, book, op)[id])
  {
  }

  lemma OthersLeaveItAlone(crypto: Crypto, book: Book, op: Op, id: string, part: Part, setter: Op)
    requires Effect(crypto, book, op).Err? || !Sets(book, op, id, part)
    requires id in Step(crypto, book, op)
    ensures id in book
    ensures Explains(crypto, setter, part, book[id]) ==> Explains(crypto, setter, part, Step(crypto, book, op)[id])
  {
    if id in book {
      StepKeepsIdentity(crypto, book, op, id);
    }
  }

  /**
   The identity, the price, the terms, the status and the time of update an advertisement shows are exactly those of
   the last accepted operation that writes them. That operation carries a signature under the key the advertisement was
   created with, unless it is a movement of liquidity: that sets the time, and the status if it took the last of it.
   */
  lemma {:induction false} EveryPartIsSigned(crypto: Crypto, ops: seq<Op>, id: string, part: Part)
    requires id in Run(crypto, ops)
    ensures exists k: nat :: IsLastSetter(crypto, ops, id, part, k) &&
                             Explains(crypto, ops[k], part, Run(crypto, ops)[id])
  {
    hide Step, Sets, Explains, Effect;
    if ops == [] {
      return;
    }
    var last := |ops| - 1;
    var before := Run(crypto, ops[..last]);
    if Accepted(crypto, ops, last) && Sets(before, ops[last], id, part) {
      SetterExplains(crypto, before, ops[last], id, part);
      assert IsLastSetter(crypto, ops, id, part, last);
    } else {
      OthersLeaveItAlone(crypto, before, ops[last], id, part, ops[last]);
      EveryPartIsSigned(crypto, ops[..last], id, part);
      var k: nat :| IsLastSetter(crypto, ops[..last], id, part, k) &&
                    Explains(crypto, ops[..last][k], part, before[id]);
      OthersLeaveItAlone(crypto, before, ops[last], id, part, ops[k]);
      LastSetterExtends(crypto, ops, id, part, k);
    }
  }

  /** No id is created twice, so the identity a record shows is that of the one accepted creation of its id. */
  lemma CreatedOnce(crypto: Crypto, ops: seq<Op>, id: string, j: nat, k: nat)
    requires j < k < |ops| && Accepted(crypto, ops, j) && Accepted(crypto, ops, k)
    requires Sets(Run(crypto, ops[..j]), ops[j], id, Identity)
    ensures !Sets(Run(crypto, ops[..k]), ops[k], id, Identity)
  {
    assert ops[..k][..j + 1] == ops[..j + 1] && ops[..j + 1][..j] == ops[..j];
    assert id in Run(crypto, ops[..j + 1]);
    hide Run;
    IdentityIsPermanent(crypto, ops[..k], j + 1, id);
  }

  lemma LastSetterExtends(crypto: Crypto, ops: seq<Op>, id: string, part: Part, k: nat)
    requires ops != [] && IsLastSetter(crypto, ops[..|ops| - 1], id, part, k)
    requires Accepted(crypto, ops, |ops| - 1) ==> !Sets(Run(crypto, ops[..|ops| - 1]), ops[|ops| - 1], id, part)
    ensures IsLastSetter(crypto, ops, id, part, k)
  {
    hide Sets, Effect, Run;
    var before := ops[..|ops| - 1];
    forall m | 0 <= m < |before|
      ensures before[..m] == ops[..m]
    {
    }
    forall m | k < m < |ops| && Accepted(crypto, ops, m)
      ensures !Sets(Run(crypto, ops[..m]), ops[m], id, part)
    {
      if m < |before| {
        assert Accepted(crypto, before, m);
      }
    }
  }

  /** A signed edit passes exactly for the record's own merchant, while the record is not deleted. */
  lemma AuthorizedIff(crypto: Crypto, book: Book, message: Message, signature: Signature)
    requires !message.Create? && message.id in book
    ensures Authorize(crypto, book, message, signature).Ok? <==>
            && crypto.verify(book[message.id].merchantPublicKey, message, signature)
            && book[message.id].merchant == message.merchant
            && book[message.id].status != Deleted
  {
  }

  /**
   Whoever cannot sign for a record learns nothing of it but that it exists: any two records in its place, whatever
   their merchants, states and keys, give the same answer and are left alone.
   */
  lemma RefusalHidesTheRecord(crypto: Crypto, book: Book, other: Book, message: Message, signature: Signature)
    requires !message.Create? && message.id in book && message.id in other
    requires !crypto.verify(book[message.id].merchantPublicKey, message, signature)
    requires !crypto.verify(other[message.id].merchantPublicKey, message, signature)
    ensures Effect(crypto, book, Signed(message, signature)) == Effect(crypto, other, Signed(message, signature))
    ensures Step(crypto, book, Signed(message, signature)) == book
    ensures Step(crypto, other, Signed(message, signature)) == other
  {
  }

  // ---- Liquidity ----

  /** What an operation moves into or out of the liquidity under `id`. */
  function Delta(crypto: Crypto, book: Book, op: Op, id: string): int {
    if Target(op) != id || Effect(crypto, book, op).Err? then 0
    else
      match op
      case Signed(message, _) => if message.Create? then message.create.initialLiquidity.baseUnits else 0
      case Reserve(_, amount, _) => 0 - amount.baseUnits
      case Release(_, amount, _) => amount.baseUnits
  }

  function Net(crypto: Crypto, ops: seq<Op>, id: string): int {
    if ops == [] then 0
    else
      Net(crypto, ops[..|ops| - 1], id) + Delta(crypto, Run(crypto, ops[..|ops| - 1]), ops[|ops| - 1], id)
  }

  function Liquidity(book: Book, id: string): int {
    if id in book then book[id].availableLiquidity.baseUnits else 0
  }

  lemma StepMovesDelta(crypto: Crypto, book: Book, op: Op, id: string)
    ensures Liquidity(Step(crypto, book, op), id) == Liquidity(book, id) + Delta(crypto, book, op, id)
  {
  }

  /** Over any run, what is left is what was put in, less what reservations took, plus what came back. */
  lemma {:induction false} LiquidityIsConserved(crypto: Crypto, ops: seq<Op>, id: string)
    ensures Liquidity(Run(crypto, ops), id) == Net(crypto, ops, id)
  {
    if ops != [] {
      LiquidityIsConserved(crypto, ops[..|ops| - 1], id);
      StepMovesDelta(crypto, Run(crypto, ops[..|ops| - 1]), ops[|ops| - 1], id);
    }
  }

  /** Releasing what was reserved restores the record, but for its clock and the status a draining reservation took. */
  lemma ReleaseUndoesReserve(crypto: Crypto, book: Book, id: string, amount: Amount, now: nat, later: nat)
    requires Effect(crypto, book, Reserve(id, amount, now)).Ok?
    ensures
      var after := Step(crypto, Step(crypto, book, Reserve(id, amount, now)), Release(id, amount, later));
      && id in after
      && after.Keys == book.Keys
      && (after[id] == book[id].(updatedAt := later) <==>
          !Drains(book, Reserve(id, amount, now), id) || book[id].status == Disabled)
      && after[id].(status := book[id].status) == book[id].(updatedAt := later)
  {
    var reserved := Step(crypto, book, Reserve(id, amount, now));
    assert reserved[id].availableLiquidity.CheckedAdd(amount) == Some(book[id].availableLiquidity);
  }

  /**
   A search by trade size returns advertisements the size can be reserved on, provided their liquidity is written in
   the precision of their bounds. Nothing on the way in checks that it is.
   */
  lemma MatchedAmountIsReservableIff(book: Book, id: string, filter: Query.Filter, now: nat)
    requires id in book && filter.amount.Some? && filter.Matches(book[id])
    ensures ReserveEffect(book, id, filter.amount.value, now).Ok? <==>
            book[id].availableLiquidity.decimals == book[id].minTrade.decimals
  {
  }

  // ---- An empty advertisement is not on offer ----

  predicate EmptyButActive(book: Book, id: string) {
    id in book && book[id].status == Active && book[id].availableLiquidity.baseUnits == 0
  }

  /** An accepted creation of `id` with nothing behind it. */
  predicate CreatesEmpty(crypto: Crypto, ops: seq<Op>, id: string, k: nat)
    requires k < |ops|
  {
    && Accepted(crypto, ops, k)
    && ops[k].Signed? && ops[k].message.Create?
    && ops[k].message.create.id == id
    && ops[k].message.create.initialLiquidity.baseUnits == 0
  }

  lemma StepNeverEmptiesActive(crypto: Crypto, book: Book, op: Op, id: string)
    requires EmptyButActive(Step(crypto, book, op), id) && !EmptyButActive(book, id)
    ensures Effect(crypto, book, op).Ok?
    ensures op.Signed? && op.message.Create?
    ensures op.message.create.id == id && op.message.create.initialLiquidity.baseUnits == 0
  {
  }

  /** An advertisement is on offer with nothing behind it only because it was itself created so. */
  lemma {:induction false} EmptyActiveWasCreatedEmpty(crypto: Crypto, ops: seq<Op>, id: string)
    requires EmptyButActive(Run(crypto, ops), id)
    ensures exists k :: 0 <= k < |ops| && CreatesEmpty(crypto, ops, id, k)
  {
    hide Step, Effect;
    if ops == [] {
      return;
    }
    var last := |ops| - 1;
    var before := ops[..last];
    if EmptyButActive(Run(crypto, before), id) {
      EmptyActiveWasCreatedEmpty(crypto, before, id);
      var k :| 0 <= k < |before| && CreatesEmpty(crypto, before, id, k);
      CreatesEmptyExtends(crypto, ops, id, last, k);
    } else {
      StepNeverEmptiesActive(crypto, Run(crypto, before), ops[last], id);
      assert CreatesEmpty(crypto, ops, id, last);
    }
  }

  /**
   An advertisement is never both active and empty in any state of a run if and only if the run accepts no empty
   creation of that advertisement, whatever it does to the others.
   */
  lemma ActiveMeansLiquidIff(crypto: Crypto, ops: seq<Op>, id: string)
    ensures (forall n :: 0 <= n <= |ops| ==> !EmptyButActive(Run(crypto, ops[..n]), id)) <==>
            (forall k :: 0 <= k < |ops| ==> !CreatesEmpty(crypto, ops, id, k))
  {
    hide Run, EmptyButActive, CreatesEmpty;
    if n :| 0 <= n <= |ops| && EmptyButActive(Run(crypto, ops[..n]), id) {
      EmptyActiveWasCreatedEmpty(crypto, ops[..n], id);
      var k :| 0 <= k < n && CreatesEmpty(crypto, ops[..n], id, k);
      CreatesEmptyExtends(crypto, ops, id, n, k);
    } else if k :| 0 <= k < |ops| && CreatesEmpty(crypto, ops, id, k) {
      CreatedEmptyIsActive(crypto, ops, id, k);
    }
  }

  lemma CreatesEmptyExtends(crypto: Crypto, ops: seq<Op>, id: string, n: nat, k: nat)
    requires k < n <= |ops| && CreatesEmpty(crypto, ops[..n], id, k)
    ensures CreatesEmpty(crypto, ops, id, k)
  {
    assert ops[..n][..k] == ops[..k];
  }

  lemma CreatedEmptyIsActive(crypto: Crypto, ops: seq<Op>, id: string, k: nat)
    requires k < |ops| && CreatesEmpty(crypto, ops, id, k)
    ensures EmptyButActive(Run(crypto, ops[..k + 1]), id)
  {
    assert ops[..k + 1][..k] == ops[..k];
  }

  /** Sells from 1 to 10 units, six decimals, over one built-in rail. */
  function Sample(merchant: PeerId, key: PublicKey, liquidity: Amount): AdvertisementCreate {
    AdvertisementCreate("ad-1", merchant, key, "mint", Sell, "KES", Amount(1_000_000, 6), Amount(10_000_000, 6),
                        liquidity, Fixed(Amount(130, 2)), [Builtin("m-pesa")], 1)
  }

  /** The registry takes the sample from any merchant who signs it, whatever its liquidity. */
  lemma SampleIsAccepted(crypto: Crypto, merchant: PeerId, key: PublicKey, liquidity: Amount, signature: Signature)
    requires crypto.peerOf(key) == Some(merchant)
    requires crypto.verify(key, Create(Sample(merchant, key, liquidity)), signature)
    ensures Run(crypto, [Signed(Create(Sample(merchant, key, liquidity)), signature)]) ==
            map["ad-1" := Created(Sample(merchant, key, liquidity))]
  {
    var op := Signed(Create(Sample(merchant, key, liquidity)), signature);
    assert [op][..0] == [];
  }

  /** A creation with no liquidity is accepted, and is on offer at once. */
  lemma EmptyCreationIsOnOffer(crypto: Crypto, merchant: PeerId, key: PublicKey, signature: Signature)
    requires crypto.peerOf(key) == Some(merchant)
    requires crypto.verify(key, Create(Sample(merchant, key, Amount(0, 6))), signature)
    ensures EmptyButActive(Run(crypto, [Signed(Create(Sample(merchant, key, Amount(0, 6))), signature)]), "ad-1")
  {
    SampleIsAccepted(crypto, merchant, key, Amount(0, 6), signature);
  }

  /** A creation with liquidity in nine decimals is accepted, found by amount, and cannot be reserved on. */
  lemma OtherDecimalsAreFoundNotReserved(crypto: Crypto, merchant: PeerId, key: PublicKey, signature: Signature,
                                         now: nat)
    requires crypto.peerOf(key) == Some(merchant)
    requires crypto.verify(key, Create(Sample(merchant, key, Amount(5_000_000_000, 9))), signature)
    ensures
      var book := Run(crypto, [Signed(Create(Sample(merchant, key, Amount(5_000_000_000, 9))), signature)]);
      var wanted := Amount(2_000_000, 6);
      && "ad-1" in book
      && Query.Filter(None, None, None, None, Some(wanted), None, None).Matches(book["ad-1"])
      && ReserveEffect(book, "ad-1", wanted, now) == Err(InsufficientLiquidity)
  {
    SampleIsAccepted(crypto, merchant, key, Amount(5_000_000_000, 9), signature);
  }

  // ---- Deletion ----

  ghost predicate IsDeletedIn(book: Book, id: string) {
    id in book && book[id].status == Deleted
  }

  lemma DeletedStepIff(crypto: Crypto, book: Book, op: Op, id: string)
    requires IsDeletedIn(book, id)
    ensures IsDeletedIn(Step(crypto, book, op), id) <==> !Drains(book, op, id)
  {
  }

  /**
   A deleted advertisement stays deleted through a continuation if and only if no reservation in it takes everything
   that is left: that one reports the advertisement disabled, and a disabled one can be put back.
   */
  lemma DeletedUntilDrained(crypto: Crypto, ops: seq<Op>, n: nat, id: string)
    requires n <= |ops| && IsDeletedIn(Run(crypto, ops[..n]), id)
    ensures (forall m :: n <= m <= |ops| ==> IsDeletedIn(Run(crypto, ops[..m]), id)) <==>
            (forall k :: n <= k < |ops| ==> !Drains(Run(crypto, ops[..k]), ops[k], id))
  {
    hide Run, IsDeletedIn, Drains;
    if forall m :: n <= m <= |ops| ==> IsDeletedIn(Run(crypto, ops[..m]), id) {
      forall k | n <= k < |ops|
        ensures !Drains(Run(crypto, ops[..k]), ops[k], id)
      {
        DeletedAtNext(crypto, ops, k, id);
      }
    } else if forall k :: n <= k < |ops| ==> !Drains(Run(crypto, ops[..k]), ops[k], id) {
      forall m | n <= m <= |ops|
        ensures IsDeletedIn(Run(crypto, ops[..m]), id)
      {
        DeletedThrough(crypto, ops, n, m, id);
      }
    }
  }

  lemma DeletedAtNext(crypto: Crypto, ops: seq<Op>, k: nat, id: string)
    requires k < |ops| && IsDeletedIn(Run(crypto, ops[..k]), id)
    ensures IsDeletedIn(Run(crypto, ops[..k + 1]), id) <==> !Drains(Run(crypto, ops[..k]), ops[k], id)
  {
    hide Step, IsDeletedIn, Drains;
    assert ops[..k + 1][..k] == ops[..k];
    DeletedStepIff(crypto, Run(crypto, ops[..k]), ops[k], id);
  }

  lemma {:induction false} DeletedThrough(crypto: Crypto, ops: seq<Op>, n: nat, m: nat, id: string)
    requires n <= m <= |ops| && IsDeletedIn(Run(crypto, ops[..n]), id)
    requires forall k :: n <= k < |ops| ==> !Drains(Run(crypto, ops[..k]), ops[k], id)
    ensures IsDeletedIn(Run(crypto, ops[..m]), id)
    decreases m
  {
    hide Run, IsDeletedIn, Drains;
    if n < m {
      DeletedThrough(crypto, ops, n, m - 1, id);
      DeletedAtNext(crypto, ops, m - 1, id);
    }
  }

  /** Any deleted advertisement comes back: reserve all of it, release something, and set it active. */
  lemma DeletedComesBack(crypto: Crypto, book: Book, id: string, some: Amount, signature: Signature, now: nat)
    requires IsDeletedIn(book, id)
    requires some.decimals == book[id].availableLiquidity.decimals && some.baseUnits > 0
    requires crypto.verify(book[id].merchantPublicKey, StatusSet(id, book[id].merchant, Active, now), signature)
    ensures
      var drained := Step(crypto, book, Reserve(id, book[id].availableLiquidity, now));
      var refilled := Step(crypto, drained, Release(id, some, now));
      var revived := Step(crypto, refilled, Signed(StatusSet(id, book[id].merchant, Active, now), signature));
      id in revived && revived[id] == book[id].(status := Active, availableLiquidity := some, updatedAt := now)
  {
    var drained := Step(crypto, book, Reserve(id, book[id].availableLiquidity, now));
    assert drained[id].status == Disabled;
    var refilled := Step(crypto, drained, Release(id, some, now));
    assert refilled[id].availableLiquidity == some;
  }
}
