/** The item mapping inside `fetchTokens`: each Covalent `balances_v2` item
    becomes a holding whose `decimals` come from `contract_decimals` by a
    JavaScript expression with an operator-precedence quirk, and whose
    `formatted` balance comes from `tokenBalanceToString`. */
module Tokens {
  import opened Wrappers
  import opened DecimalText
  import opened Units

  /** The JavaScript values `contract_decimals` can hold in this model. */
  datatype JsValue = Undefined | Null | Bool(b: bool) | Number(x: real)

  /** JavaScript truthiness. */
  predicate JsTruthy(v: JsValue) {
    match v
    case Undefined => false
    case Null => false
    case Bool(b) => b
    case Number(x) => x != 0.0
  }

  /** `v ?? alt`: the alternative only for `undefined` and `null`. */
  function Coalesce(v: JsValue, alt: JsValue): (r: JsValue)
    ensures (v.Undefined? || v.Null?) ==> r == alt
    ensures !(v.Undefined? || v.Null?) ==> r == v
  {
    if v.Undefined? || v.Null? then alt else v
  }

  /** `Number(v)` for the truthy values, the only ones it is applied to. */
  function ToNumber(v: JsValue): real
    requires JsTruthy(v)
  {
    match v
    case Bool(_) => 1.0
    case Number(x) => x
  }

  /** `Number(d ?? d === 0 ? d : 18)`. Since `===` binds tighter than `??`
      and `?:` looser than both, this is `(d ?? (d === 0)) ? d : 18`: an
      explicit 0 is falsy and falls through to 18 like a missing value. */
  function SelectDecimals(d: JsValue): (r: real)
    ensures (d.Undefined? || d.Null?) ==> r == 18.0
    ensures d == Number(0.0) ==> r == 18.0
    ensures d.Number? && d.x != 0.0 ==> r == d.x
    ensures d == Bool(true) ==> r == 1.0
    ensures d == Bool(false) ==> r == 18.0
    ensures r != 0.0
  {
    if JsTruthy(Coalesce(d, Bool(d == Number(0.0)))) then ToNumber(d) else 18.0
  }

  /** The `d === 0` test never decides the result: for a nullish d it is
      false, and otherwise `??` does not evaluate it. So the expression is
      `Number(d || 18)`. */
  lemma {:induction false} SelectDecimalsIsOr(d: JsValue)
    ensures SelectDecimals(d) == if JsTruthy(d) then ToNumber(d) else 18.0
  {
  }

  /** One Covalent item, reduced to the fields the dashboard reads. */
  datatype TokenItem = TokenItem(
    contractAddress: Option<string>,
    contractName: Option<string>,
    tickerSymbol: Option<string>,
    balance: Option<string>,
    contractDecimals: JsValue)

  /** One entry of `tokens`. */
  datatype Holding = Holding(
    contractAddress: Option<string>,
    name: Option<string>,
    symbol: Option<string>,
    balance: string,
    decimals: real,
    formatted: string)

  /** The `items` field of the response: a list, absent (`undefined` or
      `null`, read as `[]`), or some other value, on which `.map` throws. */
  datatype ItemsField = Items(items: seq<TokenItem>) | Absent | NotAList

  /** The holding for one item: `balance ?? '0'`, the selected decimals, and
      the balance shown with six fractional digits. */
  function ToHolding(it: TokenItem): Holding {
    var balance := it.balance.GetOr("0");
    var decimals := SelectDecimals(it.contractDecimals);
    Holding(it.contractAddress, it.contractName, it.tickerSymbol, balance, decimals,
      TokenBalanceToString(balance, decimals, DefaultPrecision))
  }

  /** `items.map(...)`. */
  function MapItems(items: seq<TokenItem>): (hs: seq<Holding>)
    ensures |hs| == |items|
  {
    if items == [] then [] else [ToHolding(items[0])] + MapItems(items[1..])
  }

  /** The new `tokens` list for a response that arrived; `NotAList` makes
      `.map` throw, and the handler stores `[]`. */
  function HoldingsOf(field: ItemsField): (hs: seq<Holding>)
    ensures field.Items? ==> |hs| == |field.items|
    ensures !field.Items? ==> hs == []
  {
    match field
    case Items(items) => MapItems(items)
    case Absent => []
    case NotAList => []
  }

  /** Holding i is the holding of item i, and carries its identity. */
  lemma {:induction false} MapItemsPointwise(items: seq<TokenItem>)
    ensures forall i :: 0 <= i < |items| ==> MapItems(items)[i] == ToHolding(items[i])
    ensures forall i :: 0 <= i < |items| ==>
      && MapItems(items)[i].contractAddress == items[i].contractAddress
      && MapItems(items)[i].name == items[i].contractName
      && MapItems(items)[i].symbol == items[i].tickerSymbol
    decreases |items|
  {
    if items != [] {
      MapItemsPointwise(items[1..]);
      forall i | 0 <= i < |items|
        ensures MapItems(items)[i] == ToHolding(items[i])
      {
        if i > 0 {
          assert items[1..][i - 1] == items[i];
        }
      }
    }
  }

  /** A missing balance is "0"; a present one, even "", is kept as is. */
  lemma {:induction false} HoldingBalance(it: TokenItem)
    ensures it.balance.None? ==> ToHolding(it).balance == "0"
    ensures it.balance.Some? ==> ToHolding(it).balance == it.balance.value
  {
  }

  /** A holding is never given 0 decimals, whatever the item says. */
  lemma {:induction false} HoldingNeverZeroDecimals(it: TokenItem)
    ensures ToHolding(it).decimals != 0.0
  {
  }

  /** An item whose decimals are missing, null or 0 is shown as an
      18-decimal amount, exactly like wei in ether. */
  lemma {:induction false} HoldingDefaultsTo18(it: TokenItem)
    requires it.contractDecimals in {Undefined, Null, Number(0.0)}
    ensures ToHolding(it).decimals == 18.0
    ensures ToHolding(it).formatted == WeiToEthString(it.balance.GetOr("0"), DefaultPrecision)
  {
    TokenAt18IsWei(it.balance.GetOr("0"), DefaultPrecision);
  }

  /** With e explicit decimals (e > 0) and a balance worth n units, the
      formatted text reads back as n truncated to six fractional digits of
      the token. */
  lemma {:induction false} HoldingFormatted(it: TokenItem, e: nat, n: nat)
    requires e > 0 && it.contractDecimals == Number(e as real)
    requires Parse(it.balance.GetOr("0")) == Some(n)
    ensures ToHolding(it).decimals == e as real
    ensures ReadDecimal(ToHolding(it).formatted, e)
      == Some(Truncate(n, Pow10(e - SliceEnd(e, DefaultPrecision))))
  {
    TokenReadBack(it.balance.GetOr("0"), e, DefaultPrecision, n);
  }

  /** A balance BigInt rejects is shown as "0". */
  lemma {:induction false} HoldingBadBalance(it: TokenItem)
    requires Parse(it.balance.GetOr("0")).None?
    ensures ToHolding(it).formatted == "0"
  {
    var h := ToHolding(it);
    TokenFallback(h.balance, h.decimals, DefaultPrecision);
  }

  /** An item that states 0 decimals and holds 7 units is read with 18
      decimals and shown as "0", where 0 decimals would show "7". */
  lemma {:induction false} ExampleZeroDecimals()
    ensures ToHolding(TokenItem(None, None, None, Some("7"), Number(0.0))).decimals == 18.0
    ensures ToHolding(TokenItem(None, None, None, Some("7"), Number(0.0))).formatted == "0"
  {
    var it := TokenItem(None, None, None, Some("7"), Number(0.0));
    HoldingDefaultsTo18(it);
    assert Parse("7") == Some(7) by {
      assert NatToString(7) == "7";
      ParseNatToString(7);
    }
    FormatSplit(7, 0, 7, WeiDecimals, DefaultPrecision);
    FractionEmpty(7, WeiDecimals, DefaultPrecision);
  }
}
