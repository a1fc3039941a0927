/** The arithmetic and field bookkeeping of the create-offer screen: what the
    maker must pay into the offer's address, whether the wallet covers it,
    the amount/volume recalculations and the offer assembled from the form.
    Coin and fiat values are integer base units (satoshis, fiat minor units);
    an unset JavaFX property is None. */
module CreateOffer {
  import opened Wrappers

  datatype Direction = Buy | Sell

  datatype TradeCurrency = TradeCurrency(code: string)

  /** A payment account; `sepaCountryCodes` is present exactly for SEPA
      accounts, whose accepted country codes travel with the offer. */
  datatype PaymentAccount = PaymentAccount(id: string, paymentMethodId: string,
                                           sepaCountryCodes: Option<seq<string>>)

  /** A dereference of an unset value, which the source lets surface as a
      NullPointerException. */
  datatype Failure = UnsetAmount | UnsetPaymentAccount | UnsetNodeAddress

  /** The fields of the offer the form builds; the identifiers, keys,
      country and arbitrators the source adds come from services outside this
      model. */
  datatype OfferDraft = OfferDraft(direction: Option<Direction>, price: int, amount: int, minAmount: int,
                                   paymentMethodId: string, currencyCode: Option<string>,
                                   paymentAccountId: string, acceptedCountryCodes: Option<seq<string>>)

  /** What must be paid into the offer's funding address once a security
      deposit is configured: the offer fee, the network fee and the deposit,
      and for every direction other than BUY (an unset direction included)
      the traded amount on top, which fails when that amount is unset. */
  function TotalToPay(offerFee: int, networkFee: int, securityDeposit: int,
                      direction: Option<Direction>, amount: Option<int>): (r: Result<int, Failure>)
    ensures direction == Some(Buy) ==> r == Success(offerFee + networkFee + securityDeposit)
    ensures direction != Some(Buy) && amount.Some? ==>
              r == Success(offerFee + networkFee + securityDeposit + amount.value)
    ensures direction != Some(Buy) && amount.None? ==> r == Failure(UnsetAmount)
  {
    var fees := offerFee + networkFee + securityDeposit;
    if direction == Some(Buy) then Success(fees)
    else if amount.None? then Failure(UnsetAmount)
    else Success(fees + amount.value)
  }

  /** A seller escrows exactly the traded amount more than a buyer of the
      same amount. */
  lemma SellerPaysTheAmountOnTop(offerFee: int, networkFee: int, securityDeposit: int, amount: int)
    ensures TotalToPay(offerFee, networkFee, securityDeposit, Some(Sell), Some(amount)).value ==
            TotalToPay(offerFee, networkFee, securityDeposit, Some(Buy), Some(amount)).value + amount
  {
  }

  /** With non-negative fees and amount the total never falls below any one
      of its parts. */
  lemma TotalCoversEachPart(offerFee: nat, networkFee: nat, securityDeposit: nat,
                            direction: Option<Direction>, amount: nat)
    ensures var r := TotalToPay(offerFee, networkFee, securityDeposit, direction, Some(amount));
      && r.Success?
      && r.value >= offerFee && r.value >= networkFee && r.value >= securityDeposit
      && (direction != Some(Buy) ==> r.value >= amount)
  {
  }

  /** The wallet counts as funded exactly when a total is known and the
      balance reaches it. */
  function Funded(totalToPay: Option<int>, balance: int): (r: bool)
    ensures totalToPay.None? ==> !r
    ensures totalToPay.Some? ==> (r <==> balance >= totalToPay.value)
  {
    totalToPay.Some? && balance >= totalToPay.value
  }

  /** More balance never unfunds an offer, and a total the balance covers
      for a seller is covered for a buyer too. */
  lemma FundedIsMonotone(offerFee: int, networkFee: int, securityDeposit: int, amount: nat,
                         balance: int, more: int)
    requires balance <= more
    ensures Funded(Some(TotalToPay(offerFee, networkFee, securityDeposit, Some(Sell), Some(amount)).value), balance) ==>
            && Funded(Some(TotalToPay(offerFee, networkFee, securityDeposit, Some(Sell), Some(amount)).value), more)
            && Funded(Some(TotalToPay(offerFee, networkFee, securityDeposit, Some(Buy), Some(amount)).value), balance)
  {
  }

  /** `isMinAmountLessOrEqualAmount`: the check passes while either value is
      unset, and otherwise exactly when the minimum does not exceed the amount. */
  function MinAmountLessOrEqualAmount(minAmount: Option<int>, amount: Option<int>): (r: bool)
    ensures !r <==> minAmount.Some? && amount.Some? && minAmount.value > amount.value
  {
    if minAmount.Some? && amount.Some? then !(minAmount.value > amount.value) else true
  }

  /** The value an unset long field takes in the offer. */
  function OrZero(value: Option<int>): (r: int)
    ensures value.Some? ==> r == value.value
    ensures value.None? ==> r == 0
  {
    if value.Some? then value.value else 0
  }

  /** The offer the form yields: unset price, amount and minimum become 0;
      a missing payment account fails first, a missing node address next. */
  function Offer(direction: Option<Direction>, price: Option<int>, amount: Option<int>, minAmount: Option<int>,
                 currencyCode: Option<string>, paymentAccount: Option<PaymentAccount>,
                 hasNodeAddress: bool): (r: Result<OfferDraft, Failure>)
    ensures paymentAccount.None? <==> r == Failure(UnsetPaymentAccount)
    ensures paymentAccount.Some? && !hasNodeAddress <==> r == Failure(UnsetNodeAddress)
    ensures r.Success? ==>
      && r.value.direction == direction && r.value.currencyCode == currencyCode
      && r.value.price == OrZero(price) && r.value.amount == OrZero(amount)
      && r.value.minAmount == OrZero(minAmount)
      && r.value.paymentAccountId == paymentAccount.value.id
      && r.value.paymentMethodId == paymentAccount.value.paymentMethodId
      && r.value.acceptedCountryCodes == paymentAccount.value.sepaCountryCodes
  {
    if paymentAccount.None? then Failure(UnsetPaymentAccount)
    else if !hasNodeAddress then Failure(UnsetNodeAddress)
    else
      var account := paymentAccount.value;
      Success(OfferDraft(direction, OrZero(price), OrZero(amount), OrZero(minAmount),
                         account.paymentMethodId, currencyCode, account.id, account.sepaCountryCodes))
  }

  /** A form that passed the minimum check with the amount set (or with
      neither value set) yields an offer whose minimum does not exceed its
      amount, as long as the amount is not negative. */
  lemma OfferRespectsMinimum(direction: Option<Direction>, price: Option<int>, amount: Option<int>,
                             minAmount: Option<int>, currencyCode: Option<string>,
                             paymentAccount: PaymentAccount)
    requires MinAmountLessOrEqualAmount(minAmount, amount)
    requires minAmount.Some? ==> amount.Some?
    requires amount.Some? ==> amount.value >= 0
    ensures var r := Offer(direction, price, amount, minAmount, currencyCode, Some(paymentAccount), true);
      r.Success? && r.value.minAmount <= r.value.amount
  {
  }

  /** The case the previous lemma leaves out does break the relation: a set
      minimum with an unset amount passes the check, and the offer then
      carries that minimum above an amount of 0. */
  lemma UnsetAmountUndercutsMinimum(direction: Option<Direction>, price: Option<int>, minAmount: int,
                                    currencyCode: Option<string>, paymentAccount: PaymentAccount)
    requires minAmount > 0
    ensures MinAmountLessOrEqualAmount(Some(minAmount), None)
    ensures var r := Offer(direction, price, None, Some(minAmount), currencyCode, Some(paymentAccount), true);
      r.Success? && r.value.amount == 0 && r.value.minAmount == minAmount > r.value.amount
  {
  }

  class CreateOfferDataModel {
    const offerFee: int
    const networkFee: int
    const securityDeposit: Option<int>

    var direction: Option<Direction>
    var tradeCurrency: Option<TradeCurrency>
    var tradeCurrencyCode: Option<string>
    var isWalletFunded: bool
    var amount: Option<int>
    var minAmount: Option<int>
    var price: Option<int>
    var volume: Option<int>
    var totalToPay: Option<int>
    var paymentAccount: Option<PaymentAccount>

    constructor (offerFee: int, networkFee: int, securityDeposit: Option<int>)
      ensures this.offerFee == offerFee && this.networkFee == networkFee
      ensures this.securityDeposit == securityDeposit
      ensures direction.None? && tradeCurrency.None? && tradeCurrencyCode.None? && !isWalletFunded
      ensures amount.None? && minAmount.None? && price.None? && volume.None? && totalToPay.None?
      ensures paymentAccount.None?
    {
      this.offerFee := offerFee;
      this.networkFee := networkFee;
      this.securityDeposit := securityDeposit;
      direction := None;
      tradeCurrency := None;
      tradeCurrencyCode := None;
      isWalletFunded := false;
      amount := None;
      minAmount := None;
      price := None;
      volume := None;
      totalToPay := None;
      paymentAccount := None;
    }

    /** Opens the form for `direction` and `currency`; the account the user
        has for that currency (`found`) replaces the current one only when
        there is one. */
    method InitWithData(direction: Direction, currency: TradeCurrency, found: Option<PaymentAccount>)
      modifies this`direction, this`tradeCurrency, this`tradeCurrencyCode, this`paymentAccount
      ensures this.direction == Some(direction) && tradeCurrency == Some(currency)
      ensures tradeCurrencyCode == Some(currency.code)
      ensures paymentAccount == if found.Some? then found else old(paymentAccount)
    {
      this.direction := Some(direction);
      tradeCurrency := Some(currency);
      tradeCurrencyCode := Some(currency.code);
      if found.Some? {
        paymentAccount := found;
      }
    }

    /** Selecting no account keeps the current one. */
    method OnPaymentAccountSelected(account: Option<PaymentAccount>)
      modifies this`paymentAccount
      ensures paymentAccount == if account.Some? then account else old(paymentAccount)
    {
      if account.Some? {
        paymentAccount := account;
      }
    }

    /** Re-evaluates the funded flag against the current total. */
    method UpdateBalance(balance: int)
      modifies this`isWalletFunded
      ensures isWalletFunded == Funded(totalToPay, balance)
      ensures isWalletFunded <==> totalToPay.Some? && balance >= totalToPay.value
    {
      isWalletFunded := totalToPay.Some? && balance >= totalToPay.value;
    }

    /** Recomputes the total to pay when a security deposit is configured;
        `failed` reports the dereference of an unset amount, which leaves
        the total as it was. */
    method CalculateTotalToPay() returns (failed: bool)
      modifies this`totalToPay
      ensures securityDeposit.None? ==> !failed && totalToPay == old(totalToPay)
      ensures securityDeposit.Some? ==>
        var r := TotalToPay(offerFee, networkFee, securityDeposit.value, direction, amount);
        && failed == r.Failure?
        && totalToPay == if r.Success? then Some(r.value) else old(totalToPay)
    {
      failed := false;
      if securityDeposit.Some? {
        var fees := offerFee + networkFee + securityDeposit.value;
        if direction == Some(Buy) {
          totalToPay := Some(fees);
        } else if amount.None? {
          failed := true;
        } else {
          totalToPay := Some(fees + amount.value);
        }
      }
    }

    /** Activation: refreshes the funded flag against the current balance,
        then (for BUY) the total. The flag is computed before the total, so
        it reflects the total as it stood before activation. */
    method Activate(balance: int) returns (failed: bool)
      modifies this`isWalletFunded, this`totalToPay
      ensures isWalletFunded == Funded(old(totalToPay), balance)
      ensures direction != Some(Buy) ==> !failed && totalToPay == old(totalToPay)
      ensures direction == Some(Buy) && securityDeposit.Some? ==>
                !failed && totalToPay == Some(offerFee + networkFee + securityDeposit.value)
      ensures direction == Some(Buy) && securityDeposit.None? ==> !failed && totalToPay == old(totalToPay)
    {
      UpdateBalance(balance);
      failed := false;
      if direction == Some(Buy) {
        failed := CalculateTotalToPay();
      }
    }

    /** Recomputes the volume from price and amount when both are set and
        non-zero; otherwise the volume is left alone. `coinToFiat(price,
        amount)` is the exchange-rate conversion. */
    method CalculateVolume(coinToFiat: (int, int) -> int)
      modifies this`volume
      ensures price.Some? && amount.Some? && amount.value != 0 && price.value != 0 ==>
                volume == Some(coinToFiat(price.value, amount.value))
      ensures !(price.Some? && amount.Some? && amount.value != 0 && price.value != 0) ==>
                volume == old(volume)
    {
      if price.Some? && amount.Some? && amount.value != 0 && price.value != 0 {
        volume := Some(coinToFiat(price.value, amount.value));
      }
    }

    /** Recomputes the amount from volume and price when both are set and
        non-zero, rounded by `reduceTo4Decimals`, then the total to pay;
        otherwise nothing changes. */
    method CalculateAmount(fiatToCoin: (int, int) -> int, reduceTo4Decimals: int -> int) returns (failed: bool)
      modifies this`amount, this`totalToPay
      ensures volume.Some? && price.Some? && volume.value != 0 && price.value != 0 ==>
        && amount == Some(reduceTo4Decimals(fiatToCoin(price.value, volume.value)))
        && !failed
        && (securityDeposit.Some? ==>
              totalToPay == Some(TotalToPay(offerFee, networkFee, securityDeposit.value, direction, amount).value))
        && (securityDeposit.None? ==> totalToPay == old(totalToPay))
      ensures !(volume.Some? && price.Some? && volume.value != 0 && price.value != 0) ==>
        !failed && amount == old(amount) && totalToPay == old(totalToPay)
    {
      failed := false;
      if volume.Some? && price.Some? && volume.value != 0 && price.value != 0 {
        amount := Some(reduceTo4Decimals(fiatToCoin(price.value, volume.value)));
        failed := CalculateTotalToPay();
      }
    }
  }
}
