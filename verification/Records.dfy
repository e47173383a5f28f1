/** The advertisement record and the values it is made of. */
module Records {
  import opened Wrappers
  import opened MachineInt

  type PeerId = string
  type PublicKey = string

  type Word = x: int | 0 <= x < U64

  /** A count of an asset's smallest unit, with the precision it is written in. */
  datatype Amount = Amount(baseUnits: Word, decimals: byte) {
    /** The sum, unless the precisions differ or it does not fit the word. Subtracting undoes it. */
    function CheckedAdd(other: Amount): (r: Option<Amount>)
      ensures r.Some? <==> decimals == other.decimals && baseUnits + other.baseUnits < U64
      ensures r.Some? ==> r.value.CheckedSub(other) == Some(this)
    {
      if decimals != other.decimals || baseUnits + other.baseUnits >= U64 then None
      else Some(Amount(baseUnits + other.baseUnits, decimals))
    }

    function CheckedSub(other: Amount): Option<Amount> {
      if decimals != other.decimals || baseUnits < other.baseUnits then None
      else Some(Amount(baseUnits - other.baseUnits, decimals))
    }
  }

  /** A rail this build ships, or one a merchant defined and alone may offer. */
  datatype PaymentMethodRef = Builtin(slug: string) | Defined(owner: PeerId, digest: string) {
    predicate IsSelectableBy(merchant: PeerId) {
      Defined? ==> owner == merchant
    }
  }

  datatype Direction = Sell | Buy

  datatype AdvertisementStatus = Active | Disabled | Vacation | Deleted

  datatype PricingModel =
    | Fixed(price: Amount)
    | Floating(oracleProvider: string, premiumBps: int, priceDecimals: byte)

  datatype Advertisement = Advertisement(
    id: string,
    merchant: PeerId,
    merchantPublicKey: PublicKey,
    assetMint: string,
    direction: Direction,
    fiatCurrency: string,
    minTrade: Amount,
    maxTrade: Amount,
    availableLiquidity: Amount,
    pricing: PricingModel,
    paymentMethods: seq<PaymentMethodRef>,
    status: AdvertisementStatus,
    createdAt: nat,
    updatedAt: nat)
}
