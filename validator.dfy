/** `validateInput`: the receipt's fields are checked in a fixed order and the
    first check that fails decides the error; no score is computed after a failure. */
module Validator {
  import opened Formats
  import opened Receipts

  /** One reason per check; the item reasons carry the offending text. */
  datatype Reason =
    | InvalidRetailer
    | InvalidPurchaseDate
    | InvalidPurchaseTime
    | NoItems
    | InvalidItemDescription(description: string)
    | InvalidItemPrice(price: string)
    | InvalidTotal

  datatype Outcome = Ok | Err(reason: Reason)

  predicate ItemOk(item: Item)
  {
    ValidDescription(item.shortDescription) && IsAmount(item.price)
  }

  /** Everything the validator demands of a receipt, independent of the order of the checks. */
  predicate ValidReceipt(r: Receipt)
  {
    && ValidRetailer(r.retailer)
    && ValidDate(r.purchaseDate)
    && ValidTime(r.purchaseTime)
    && |r.items| > 0
    && (forall k | 0 <= k < |r.items| :: ItemOk(r.items[k]))
    && IsAmount(r.total)
  }

  /** The error a failing item reports: its description is checked before its price. */
  function ItemFailure(item: Item): Reason
    requires !ItemOk(item)
  {
    if !ValidDescription(item.shortDescription) then InvalidItemDescription(item.shortDescription)
    else InvalidItemPrice(item.price)
  }

  /** The loop over the items, stopping at the first failure. */
  function CheckItems(items: seq<Item>): Outcome
  {
    if items == [] then Ok
    else if !ValidDescription(items[0].shortDescription) then
      Err(InvalidItemDescription(items[0].shortDescription))
    else if !IsAmount(items[0].price) then
      Err(InvalidItemPrice(items[0].price))
    else CheckItems(items[1..])
  }

  /** The item loop passes exactly when every item passes, and otherwise reports
      the failure of the first item that fails. */
  lemma {:induction false} CheckItemsFindsFirst(items: seq<Item>)
    ensures CheckItems(items).Ok? <==> forall k | 0 <= k < |items| :: ItemOk(items[k])
    ensures CheckItems(items).Err? ==>
      exists k | 0 <= k < |items| ::
        && (forall j | 0 <= j < k :: ItemOk(items[j]))
        && !ItemOk(items[k])
        && CheckItems(items).reason == ItemFailure(items[k])
  {
    if items != [] && ItemOk(items[0]) {
      var rest := items[1..];
      CheckItemsFindsFirst(rest);
      assert forall k | 0 < k < |items| :: items[k] == rest[k - 1];
      if CheckItems(rest).Err? {
        var k :| 0 <= k < |rest| && (forall j | 0 <= j < k :: ItemOk(rest[j]))
                 && !ItemOk(rest[k]) && CheckItems(rest).reason == ItemFailure(rest[k]);
        assert forall j | 0 <= j < k + 1 :: ItemOk(items[j]) by {
          forall j | 0 <= j < k + 1 ensures ItemOk(items[j]) {
            if j > 0 { assert items[j] == rest[j - 1]; }
          }
        }
        assert items[k + 1] == rest[k];
      }
    }
  }

  /** `validateInput`. */
  function Validate(r: Receipt): Outcome
  {
    if !ValidRetailer(r.retailer) then Err(InvalidRetailer)
    else if !ValidDate(r.purchaseDate) then Err(InvalidPurchaseDate)
    else if !ValidTime(r.purchaseTime) then Err(InvalidPurchaseTime)
    else if r.items == [] then Err(NoItems)
    else
      var items := CheckItems(r.items);
      if items.Err? then items
      else if !IsAmount(r.total) then Err(InvalidTotal)
      else Ok
  }

  /** Validation fails closed: it passes exactly when every rule holds. */
  lemma ValidateAcceptsExactlyValid(r: Receipt)
    ensures Validate(r) == Ok <==> ValidReceipt(r)
  {
    CheckItemsFindsFirst(r.items);
  }

  /** The reported error is that of the first failing check, in the order retailer,
      date, time, items present, each item's description then price, total. */
  lemma ValidateReportsFirstFailure(r: Receipt)
    ensures Validate(r) == Err(InvalidRetailer) <==> !ValidRetailer(r.retailer)
    ensures Validate(r) == Err(InvalidPurchaseDate) <==> ValidRetailer(r.retailer) && !ValidDate(r.purchaseDate)
    ensures Validate(r) == Err(InvalidPurchaseTime) <==>
      ValidRetailer(r.retailer) && ValidDate(r.purchaseDate) && !ValidTime(r.purchaseTime)
    ensures Validate(r) == Err(NoItems) <==>
      ValidRetailer(r.retailer) && ValidDate(r.purchaseDate) && ValidTime(r.purchaseTime) && r.items == []
    ensures Validate(r).Err? && (Validate(r).reason.InvalidItemDescription? || Validate(r).reason.InvalidItemPrice?) <==>
      && ValidRetailer(r.retailer) && ValidDate(r.purchaseDate) && ValidTime(r.purchaseTime)
      && exists k | 0 <= k < |r.items| :: !ItemOk(r.items[k])
    ensures Validate(r).Err? && (Validate(r).reason.InvalidItemDescription? || Validate(r).reason.InvalidItemPrice?) ==>
      exists k | 0 <= k < |r.items| ::
        && (forall j | 0 <= j < k :: ItemOk(r.items[j]))
        && !ItemOk(r.items[k])
        && Validate(r).reason == ItemFailure(r.items[k])
    ensures Validate(r) == Err(InvalidTotal) <==>
      && ValidRetailer(r.retailer) && ValidDate(r.purchaseDate) && ValidTime(r.purchaseTime)
      && r.items != [] && (forall k | 0 <= k < |r.items| :: ItemOk(r.items[k]))
      && !IsAmount(r.total)
  {
    CheckItemsFindsFirst(r.items);
  }

  /** A receipt without items is rejected whatever its other fields hold, and it
      is the items rule that is reported once the fields checked before it pass. */
  lemma EmptyItemsRejected(r: Receipt)
    requires r.items == []
    ensures Validate(r).Err?
    ensures ValidRetailer(r.retailer) && ValidDate(r.purchaseDate) && ValidTime(r.purchaseTime) ==>
      Validate(r) == Err(NoItems)
  {
  }

  /** The `detail` text of the rejection. */
  function Message(reason: Reason): string
  {
    match reason
    case InvalidRetailer => "Invalid retailer format."
    case InvalidPurchaseDate => "Invalid purchaseDate format. Expected YYYY-MM-DD."
    case InvalidPurchaseTime => "Invalid purchaseTime format. Expected HH:MM."
    case NoItems => "The receipt must have at least one item."
    case InvalidItemDescription(d) => "Invalid item description: " + d
    case InvalidItemPrice(p) => "Invalid item price: " + p
    case InvalidTotal => "Invalid total amount format."
  }

  /** Different reasons give different messages, so the message names the rule that failed. */
  lemma MessageInjective(a: Reason, b: Reason)
    requires Message(a) == Message(b)
    ensures a == b
  {
    var m := Message(a);
    if a.InvalidItemDescription? || b.InvalidItemDescription? {
      assert m[13] == 'd';
      if a.InvalidItemDescription? && b.InvalidItemDescription? {
        assert a.description == m[26..] == b.description;
      }
    } else if a.InvalidItemPrice? || b.InvalidItemPrice? {
      assert m[13] == 'p';
      if a.InvalidItemPrice? && b.InvalidItemPrice? {
        assert a.price == m[20..] == b.price;
      }
    } else if a.InvalidPurchaseDate? || b.InvalidPurchaseDate? {
      assert m[16] == 'D';
    } else if a.InvalidPurchaseTime? || b.InvalidPurchaseTime? {
      assert m[16] == 'T';
    }
  }
}
