/** `mapEtherscanTxsToTable`: each Etherscan `txlist` record becomes a table
    row with its direction seen from the current address, its counterparty,
    its amount in ether and a time cell. */
module Transactions {
  import opened Wrappers
  import opened DecimalText
  import opened Units

  /** One Etherscan `txlist` record, reduced to the six fields the mapper
      reads; any of them may be missing. The program's `raw` is the whole
      Etherscan object, of which this keeps only these fields. */
  datatype Tx = Tx(
    from: Option<string>,
    to: Option<string>,
    value: Option<string>,
    timeStamp: Option<string>,
    blockNumber: Option<string>,
    hash: Option<string>)

  /** The `type` column. */
  datatype Direction = Incoming | Outgoing

  /** One table row: `type`, `object` (the counterparty), `amount`, `time`,
      `hash` and the record itself as `raw`. */
  datatype Row = Row(
    direction: Direction,
    counterparty: Option<string>,
    amount: string,
    time: string,
    hash: Option<string>,
    raw: Tx)

  /** The text shown in the `type` column. */
  function DirectionName(d: Direction): string {
    match d
    case Incoming => "Incoming"
    case Outgoing => "Outgoing"
  }

  /** JavaScript `field || fallback` on a string field: a missing field and
      the empty string are both falsy. */
  function OrElse(field: Option<string>, fallback: string): (r: string)
    ensures field.Some? && field.value != "" ==> r == field.value
    ensures (field.None? || field.value == "") ==> r == fallback
  {
    match field
    case None => fallback
    case Some(s) => if s == "" then fallback else s
  }

  /** A string field is truthy when it is present and not empty. */
  predicate Truthy(field: Option<string>) {
    field.Some? && field.value != ""
  }

  // ---------------------------------------------------------------------
  // ASCII lowercase

  predicate IsUpper(c: char) {
    'A' <= c <= 'Z'
  }

  predicate IsLower(c: char) {
    'a' <= c <= 'z'
  }

  /** `toLowerCase` on one ASCII character. */
  function LowerChar(c: char): char {
    if IsUpper(c) then (c as int + 32) as char else c
  }

  /** `toLowerCase` on a string, ASCII letters only. */
  function Lower(s: string): (r: string)
    ensures |r| == |s|
  {
    seq(|s|, i requires 0 <= i < |s| => LowerChar(s[i]))
  }

  /** Two characters are the same up to case: equal, or the upper- and
      lowercase form of one ASCII letter. */
  predicate SameLetter(x: char, y: char) {
    || x == y
    || (IsUpper(x) && IsLower(y) && y as int - x as int == 32)
    || (IsLower(x) && IsUpper(y) && x as int - y as int == 32)
  }

  /** Case-insensitive string equality, character by character. */
  predicate EqualIgnoringCase(a: string, b: string) {
    |a| == |b| && forall i :: 0 <= i < |a| ==> SameLetter(a[i], b[i])
  }

  /** Lowercasing leaves no uppercase letter and changes nothing else. */
  lemma {:induction false} LowerShape(s: string)
    ensures forall i :: 0 <= i < |s| ==> !IsUpper(Lower(s)[i])
    ensures forall i :: 0 <= i < |s| ==> SameLetter(s[i], Lower(s)[i])
    ensures Lower(Lower(s)) == Lower(s)
  {
  }

  /** Characters agree after lowercasing exactly when they are the same
      letter up to case. */
  lemma {:induction false} LowerCharSame(x: char, y: char)
    ensures LowerChar(x) == LowerChar(y) <==> SameLetter(x, y)
  {
  }

  /** Comparing lowercased strings is case-insensitive comparison. */
  lemma {:induction false} LowerEqual(a: string, b: string)
    ensures Lower(a) == Lower(b) <==> EqualIgnoringCase(a, b)
  {
    if Lower(a) == Lower(b) {
      forall i | 0 <= i < |a|
        ensures SameLetter(a[i], b[i])
      {
        assert Lower(a)[i] == Lower(b)[i];
        LowerCharSame(a[i], b[i]);
      }
    }
    if EqualIgnoringCase(a, b) {
      forall i | 0 <= i < |a|
        ensures Lower(a)[i] == Lower(b)[i]
      {
        LowerCharSame(a[i], b[i]);
      }
    }
  }

  // ---------------------------------------------------------------------
  // One record

  /** `from === current && from !== ''` on the lowercased addresses. */
  predicate IsOutgoing(tx: Tx, current: string) {
    var from := Lower(OrElse(tx.from, ""));
    from == Lower(current) && from != ""
  }

  /** The `amount` cell: the value in wei, "0" when missing, shown with six
      fractional digits and the unit. */
  function AmountCell(tx: Tx): string {
    WeiToEthString(OrElse(tx.value, "0"), DefaultPrecision) + " ETH"
  }

  /** The `time` cell: the timestamp through the locale formatter, else the
      block number, else nothing. */
  function TimeCell(tx: Tx, localeTime: string -> string): string {
    if Truthy(tx.timeStamp) then localeTime(tx.timeStamp.value)
    else if Truthy(tx.blockNumber) then "block " + tx.blockNumber.value
    else ""
  }

  /** The row for one record, seen from the address `current`. */
  function MapTx(tx: Tx, current: string, localeTime: string -> string): Row {
    var outgoing := IsOutgoing(tx, current);
    Row(
      if outgoing then Outgoing else Incoming,
      if outgoing then tx.to else tx.from,
      AmountCell(tx),
      TimeCell(tx, localeTime),
      tx.hash,
      tx)
  }

  /** A row is outgoing exactly when its sender is present and is the
      current address up to case. */
  lemma {:induction false} DirectionSpec(tx: Tx, current: string, localeTime: string -> string)
    ensures MapTx(tx, current, localeTime).direction == Outgoing
      <==> Truthy(tx.from) && EqualIgnoringCase(tx.from.value, current)
  {
    var from := OrElse(tx.from, "");
    LowerEqual(from, current);
    assert Lower(from) != "" <==> from != "";
  }

  /** The `type` text is "Outgoing" exactly when the sender is present and
      is the current address up to case, and "Incoming" otherwise. */
  lemma {:induction false} TypeTextSpec(tx: Tx, current: string, localeTime: string -> string)
    ensures var name := DirectionName(MapTx(tx, current, localeTime).direction);
      && (name == "Outgoing" <==> Truthy(tx.from) && EqualIgnoringCase(tx.from.value, current))
      && (name == "Incoming" <==> !(Truthy(tx.from) && EqualIgnoringCase(tx.from.value, current)))
  {
    DirectionSpec(tx, current, localeTime);
  }

  /** The counterparty is the receiver, as written in the record, on an
      outgoing row and the sender otherwise. */
  lemma {:induction false} CounterpartySpec(tx: Tx, current: string, localeTime: string -> string)
    ensures var row := MapTx(tx, current, localeTime);
      row.counterparty == if row.direction == Outgoing then tx.to else tx.from
  {
  }

  /** The amount is the ether value of the record, truncated to whole
      10^12 wei (six fractional digits), followed by " ETH"; a missing or
      unreadable value shows as "0 ETH". */
  lemma {:induction false} AmountSpec(tx: Tx, current: string, localeTime: string -> string)
    ensures var amount := MapTx(tx, current, localeTime).amount;
      && |amount| >= 4
      && amount[|amount| - 4..] == " ETH"
      && Canonical(amount[..|amount| - 4])
    ensures var amount := MapTx(tx, current, localeTime).amount;
      match Parse(OrElse(tx.value, "0"))
      case None => amount == "0 ETH"
      case Some(n) =>
        ReadDecimal(amount[..|amount| - 4], WeiDecimals) == Some(Truncate(n, Pow10(12)))
  {
    var wei := OrElse(tx.value, "0");
    var shown := WeiToEthString(wei, DefaultPrecision);
    assert MapTx(tx, current, localeTime).amount == shown + " ETH";
    assert (shown + " ETH")[..|shown|] == shown;
    WeiToEthShape(wei, DefaultPrecision);
    match Parse(wei)
    case None =>
    case Some(n) =>
      WeiToEthReadBack(wei, DefaultPrecision, n);
      assert SliceEnd(WeiDecimals, DefaultPrecision) == 6;
  }

  /** A missing or empty value is read as 0 wei. */
  lemma {:induction false} AmountMissing(tx: Tx, current: string, localeTime: string -> string)
    requires !Truthy(tx.value)
    ensures MapTx(tx, current, localeTime).amount == "0 ETH"
  {
    WeiToEthZero();
  }

  /** The time cell prefers the timestamp, then the block number. */
  lemma {:induction false} TimeSpec(tx: Tx, current: string, localeTime: string -> string)
    ensures var time := MapTx(tx, current, localeTime).time;
      && (Truthy(tx.timeStamp) ==> time == localeTime(tx.timeStamp.value))
      && (!Truthy(tx.timeStamp) && Truthy(tx.blockNumber) ==> time == "block " + tx.blockNumber.value)
      && (!Truthy(tx.timeStamp) && !Truthy(tx.blockNumber) ==> time == "")
  {
  }

  // ---------------------------------------------------------------------
  // The whole list

  /** `txlist.map(...)`, with the current address passed in. */
  function MapTxs(txs: seq<Tx>, current: string, localeTime: string -> string): (rows: seq<Row>)
    ensures |rows| == |txs|
  {
    if txs == [] then []
    else [MapTx(txs[0], current, localeTime)] + MapTxs(txs[1..], current, localeTime)
  }

  /** Row i is the row for record i: same order, same hash, and the record
      itself as `raw`. */
  lemma {:induction false} MapTxsPointwise(txs: seq<Tx>, current: string, localeTime: string -> string)
    ensures forall i :: 0 <= i < |txs| ==> MapTxs(txs, current, localeTime)[i] == MapTx(txs[i], current, localeTime)
    ensures forall i :: 0 <= i < |txs| ==>
      MapTxs(txs, current, localeTime)[i].raw == txs[i] && MapTxs(txs, current, localeTime)[i].hash == txs[i].hash
    decreases |txs|
  {
    if txs != [] {
      MapTxsPointwise(txs[1..], current, localeTime);
      forall i | 0 <= i < |txs|
        ensures MapTxs(txs, current, localeTime)[i] == MapTx(txs[i], current, localeTime)
      {
        if i > 0 {
          assert txs[1..][i - 1] == txs[i];
        }
      }
    }
  }

  /** Mapping a concatenation maps each part. */
  lemma {:induction false} MapTxsAppend(a: seq<Tx>, b: seq<Tx>, current: string, localeTime: string -> string)
    ensures MapTxs(a + b, current, localeTime) == MapTxs(a, current, localeTime) + MapTxs(b, current, localeTime)
    decreases |a|
  {
    if a != [] {
      assert (a + b)[0] == a[0];
      assert (a + b)[1..] == a[1..] + b;
      MapTxsAppend(a[1..], b, current, localeTime);
      var head := [MapTx(a[0], current, localeTime)];
      assert MapTxs(a + b, current, localeTime)
        == head + (MapTxs(a[1..], current, localeTime) + MapTxs(b, current, localeTime));
    } else {
      assert a + b == b;
    }
  }

  /** The raw records can be read back from the rows. */
  lemma {:induction false} MapTxsRaw(txs: seq<Tx>, current: string, localeTime: string -> string)
    ensures var rows := MapTxs(txs, current, localeTime);
      seq(|rows|, i requires 0 <= i < |rows| => rows[i].raw) == txs
  {
    MapTxsPointwise(txs, current, localeTime);
  }

  /** A record sent by the current address, written in another case, is an
      outgoing row towards its receiver, showing one ether and its block. */
  lemma {:induction false} ExampleOutgoing(localeTime: string -> string)
    ensures var tx := Tx(Some("0xAbC"), Some("0xDeF"), Some("1" + Zeros(WeiDecimals)), None, Some("17"), Some("0x1"));
      MapTx(tx, "0xabc", localeTime)
        == Row(Outgoing, Some("0xDeF"), "1 ETH", "block 17", Some("0x1"), tx)
  {
    var tx := Tx(Some("0xAbC"), Some("0xDeF"), Some("1" + Zeros(WeiDecimals)), None, Some("17"), Some("0x1"));
    assert IsOutgoing(tx, "0xabc") by {
      assert Lower("0xAbC") == "0xabc";
    }
    assert AmountCell(tx) == "1 ETH" by {
      assert "1" + Zeros(WeiDecimals) != "";
      WeiToEthOneEther();
    }
  }

  /** A record with no sender, no value and no time is an incoming row
      with no counterparty, "0 ETH" and an empty time cell. */
  lemma {:induction false} ExampleEmpty(current: string, localeTime: string -> string)
    ensures var tx := Tx(None, None, None, None, None, None);
      MapTx(tx, current, localeTime) == Row(Incoming, None, "0 ETH", "", None, tx)
  {
    WeiToEthZero();
  }
}
