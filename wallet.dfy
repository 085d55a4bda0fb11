/** The composable's state and its three fetchers. Each HTTP exchange is
    an input: the response that arrived, or the error it failed with. */
module Wallet {
  import opened Wrappers
  import opened DecimalText
  import opened Units
  import opened Transactions
  import opened Tokens

  /** How an `axios.get` call ended: a payload, or an exception with its
      `message` (possibly empty) and its `String(e)` text. */
  datatype Response<T> = Ok(payload: T) | Fail(message: string, text: string)

  /** The `result` of the balance call: a wei string, or missing. */
  type BalancePayload = Option<string>

  /** The `result` of the txlist call: a list of records, or something else
      (Etherscan sends a message string when there is nothing to list). */
  datatype TxPayload = TxList(txs: seq<Tx>) | NotAnArray

  /** `e.message || String(e)`. */
  function ErrorText(message: string, text: string): (r: string)
    ensures message != "" ==> r == message
    ensures message == "" ==> r == text
  {
    if message != "" then message else text
  }

  /** The balance shown for a response that arrived: a truthy `result` is
      converted from wei, anything else is "0". */
  function BalanceOf(result: BalancePayload): (r: string)
    ensures Canonical(r)
    ensures !Truthy(result) ==> r == "0"
  {
    if Truthy(result) then
      WeiToEthShape(result.value, DefaultPrecision);
      WeiToEthString(result.value, DefaultPrecision)
    else
      assert DotIndex("0") == 1;
      "0"
  }

  /** The six reactive values of the composable. */
  class WalletState {
    var address: string
    var ethBalance: string
    var transactions: seq<Row>
    var tokens: seq<Holding>
    var loading: bool
    var error: Option<string>

    /** The initial values of the refs. */
    constructor ()
      ensures address == "" && ethBalance == "0"
      ensures transactions == [] && tokens == []
      ensures !loading && error == None
      ensures Valid()
    {
      assert DotIndex("0") == 1;
      address := "";
      ethBalance := "0";
      transactions := [];
      tokens := [];
      loading := false;
      error := None;
    }

    /** The balance is always shown in the converter's format. */
    predicate Valid()
      reads this
    {
      Canonical(ethBalance)
    }

    /** `setAddress(a)`. */
    method SetAddress(a: string)
      modifies this
      ensures address == a
      ensures ethBalance == old(ethBalance) && transactions == old(transactions)
      ensures tokens == old(tokens) && loading == old(loading) && error == old(error)
    {
      address := a;
    }

    /** `fetchBalance(addr)`, with `response` the outcome of the request. */
    method FetchBalance(addr: string, response: Response<BalancePayload>)
      modifies this
      ensures Valid()
      ensures addr == "" ==> ethBalance == "0" && loading == old(loading) && error == old(error)
      ensures addr != "" && response.Ok? ==>
        ethBalance == BalanceOf(response.payload) && !loading && error == None
      ensures addr != "" && response.Fail? ==>
        ethBalance == "0" && !loading && error == Some(ErrorText(response.message, response.text))
      ensures address == old(address) && transactions == old(transactions) && tokens == old(tokens)
    {
      if addr == "" {
        ethBalance := "0";
        assert DotIndex("0") == 1;
        return;
      }
      loading := true;
      error := None;
      match response {
        case Ok(result) =>
          ethBalance := BalanceOf(result);
        case Fail(message, text) =>
          error := Some(ErrorText(message, text));
          ethBalance := "0";
          assert DotIndex("0") == 1;
      }
      loading := false;
    }

    /** `fetchTxs(addr)`. The rows are seen from the stored `address`, which
        is what the mapper reads, not from `addr`; `localeTime` stands for
        the locale's date formatting of a timestamp. */
    method FetchTxs(addr: string, response: Response<TxPayload>, localeTime: string -> string)
      modifies this
      ensures addr == "" ==> transactions == [] && loading == old(loading)
      ensures addr != "" && response.Ok? && response.payload.TxList? ==>
        transactions == MapTxs(response.payload.txs, address, localeTime) && !loading
      ensures addr != "" && !(response.Ok? && response.payload.TxList?) ==>
        transactions == [] && !loading
      ensures address == old(address) && ethBalance == old(ethBalance)
      ensures tokens == old(tokens) && error == old(error)
    {
      if addr == "" {
        transactions := [];
        return;
      }
      loading := true;
      match response {
        case Ok(payload) =>
          var raw := if payload.TxList? then payload.txs else [];
          transactions := MapTxs(raw, address, localeTime);
        case Fail(_, _) =>
          transactions := [];
      }
      loading := false;
    }

    /** `fetchAll(addr)` when the balance response is handled before the
        transaction list: the two fetchers write different fields, and both
        clear `loading`. */
    method FetchAll(addr: string, balance: Response<BalancePayload>, txs: Response<TxPayload>,
                    localeTime: string -> string)
      modifies this
      ensures Valid()
      ensures addr == "" ==> ethBalance == "0" && transactions == [] && loading == old(loading)
      ensures addr != "" ==> !loading
      ensures addr != "" && balance.Ok? ==> ethBalance == BalanceOf(balance.payload) && error == None
      ensures addr != "" && balance.Fail? ==>
        ethBalance == "0" && error == Some(ErrorText(balance.message, balance.text))
      ensures addr != "" && txs.Ok? && txs.payload.TxList? ==>
        transactions == MapTxs(txs.payload.txs, address, localeTime)
      ensures addr != "" && !(txs.Ok? && txs.payload.TxList?) ==> transactions == []
      ensures addr == "" ==> error == old(error)
      ensures address == old(address) && tokens == old(tokens)
    {
      FetchBalance(addr, balance);
      FetchTxs(addr, txs, localeTime);
    }

    /** `fetchTokens(addr)`; the chain id only enters the URL. */
    method FetchTokens(addr: string, response: Response<ItemsField>)
      modifies this
      ensures addr == "" ==> tokens == [] && loading == old(loading)
      ensures addr != "" && response.Ok? ==> tokens == HoldingsOf(response.payload) && !loading
      ensures addr != "" && response.Fail? ==> tokens == [] && !loading
      ensures address == old(address) && ethBalance == old(ethBalance)
      ensures transactions == old(transactions) && error == old(error)
    {
      if addr == "" {
        tokens := [];
        return;
      }
      loading := true;
      match response {
        case Ok(field) =>
          tokens := HoldingsOf(field);
        case Fail(_, _) =>
          tokens := [];
      }
      loading := false;
    }
  }

  /** A balance that arrived is shown as the wei amount truncated to six
      fractional digits of ether. */
  lemma {:induction false} BalanceReadBack(wei: string, n: nat)
    requires Parse(wei) == Some(n)
    ensures ReadDecimal(BalanceOf(Some(wei)), WeiDecimals) == Some(Truncate(n, Pow10(12)))
  {
    assert BalanceOf(Some(wei)) == WeiToEthString(wei, DefaultPrecision) by {
      if wei == "" {
        WeiToEthZero();
      }
    }
    assert SliceEnd(WeiDecimals, DefaultPrecision) == 6;
    WeiToEthReadBack(wei, DefaultPrecision, n);
  }
}
