/** The service: the in-memory `receiptPoints` ledger and the two operations that
    use it, submitting a receipt (validate, score, store under a new id) and
    querying the points stored under an id. */
module App {
  import opened Chars
  import opened Formats
  import opened Receipts
  import opened Validator
  import opened Scorer

  /** The answer to a points query. */
  datatype Lookup = Found(points: nat) | NotFound

  /** The answer to a submission: the id the points are stored under, or the
      first rule the receipt breaks. */
  datatype Submission = Accepted(id: string) | Rejected(reason: Reason)

  /** The loop of rule (a): counts the alphanumeric characters of the retailer name. */
  method CountAlnum(retailer: string) returns (points: nat)
    ensures points == AlnumCount(retailer)
  {
    points := 0;
    for i := 0 to |retailer|
      invariant points == AlnumCount(retailer[..i])
    {
      assert retailer[..i + 1][..i] == retailer[..i];
      if IsAlnum(retailer[i]) {
        points := points + 1;
      }
    }
    assert retailer[..|retailer|] == retailer;
  }

  /** The loop of rule (e): adds up the price bonus of every item whose stripped
      description has a length divisible by three. */
  method ScoreDescriptions(items: seq<Item>) returns (points: nat)
    requires PricesAreAmounts(items)
    ensures points == DescriptionPoints(items)
  {
    points := 0;
    for i := 0 to |items|
      invariant PricesAreAmounts(items[..i])
      invariant points == DescriptionPoints(items[..i])
    {
      assert items[..i + 1][..i] == items[..i];
      assert items[..i + 1][i] == items[i];
      var description := Strip(items[i].shortDescription);
      if |description| % 3 == 0 {
        points := points + CeilFifth(AmountCents(items[i].price));
      }
    }
    assert items[..|items|] == items;
  }

  class Ledger {
    /** Points stored per receipt id. */
    var receiptPoints: map<string, nat>

    constructor ()
      ensures receiptPoints == map[]
    {
      receiptPoints := map[];
    }

    /** `getPoints`: the stored points, or `NotFound` for an id never stored. */
    method GetPoints(id: string) returns (res: Lookup)
      ensures id in receiptPoints ==> res == Found(receiptPoints[id])
      ensures id !in receiptPoints ==> res == NotFound
    {
      if id !in receiptPoints {
        return NotFound;
      }
      return Found(receiptPoints[id]);
    }

    /** `calculatePoint`: scores a validated receipt rule by rule into an
        accumulator and stores the total under `uniqueId`; no other id changes. */
    method CalculatePoint(retailer: string, purchaseDate: string, purchaseTime: string,
                          items: seq<Item>, total: string, uniqueId: string)
      requires ValidReceipt(Receipt(retailer, purchaseDate, purchaseTime, items, total))
      modifies this
      ensures receiptPoints == old(receiptPoints)[uniqueId := Points(Receipt(retailer, purchaseDate, purchaseTime, items, total))]
    {
      ghost var r := Receipt(retailer, purchaseDate, purchaseTime, items, total);
      ValidReceiptPrices(r);

      // (a) one point per alphanumeric character of the retailer name
      var points := CountAlnum(retailer);
      ghost var afterRetailer := points;

      // (b) six points for an odd day
      var day := DayOf(purchaseDate);
      if day % 2 == 1 {
        points := points + 6;
      }

      // (c) ten points for an hour from 14 up to 16
      var time := HourOf(purchaseTime);
      if 14 <= time < 16 {
        points := points + 10;
      }

      // (d) five points for every two items
      points := points + (|items| / 2) * 5;

      // (e) a fifth of the price, rounded up, for descriptions whose length is a multiple of three
      ghost var before := points;
      assert before == afterRetailer + OddDayPoints(purchaseDate) + AfternoonPoints(purchaseTime) + PairPoints(|items|);
      var bonus := ScoreDescriptions(items);
      points := points + bonus;

      // (f) fifty points for a round-dollar total, (g) twenty-five for a multiple of a quarter
      var cents := CentsField(total);
      if cents == 0 {
        points := points + 50;
      }
      if cents % 25 == 0 {
        points := points + 25;
      }

      assert points == Points(r);
      receiptPoints := receiptPoints[uniqueId := points];
    }

    /** `processReceipt`, with the freshly generated id passed in: a receipt that
        fails validation leaves the ledger as it was and reports the first broken
        rule; a valid one has its points stored under the id, which is returned. */
    method ProcessReceipt(receipt: Receipt, uniqueId: string) returns (res: Submission)
      modifies this
      ensures Validate(receipt).Err? ==>
        res == Rejected(Validate(receipt).reason) && receiptPoints == old(receiptPoints)
      ensures Validate(receipt) == Ok ==>
        && ValidReceipt(receipt)
        && res == Accepted(uniqueId)
        && receiptPoints == old(receiptPoints)[uniqueId := Points(receipt)]
    {
      var outcome := Validate(receipt);
      if outcome.Err? {
        return Rejected(outcome.reason);
      }
      ValidateAcceptsExactlyValid(receipt);
      CalculatePoint(receipt.retailer, receipt.purchaseDate, receipt.purchaseTime,
                     receipt.items, receipt.total, uniqueId);
      return Accepted(uniqueId);
    }
  }

  /** A submission followed by a query of its id returns the receipt's points,
      and a query of any other id answers as it did before the submission. */
  method SubmitThenQuery(ledger: Ledger, receipt: Receipt, uniqueId: string, other: string)
    returns (res: Submission, mine: Lookup, theirs: Lookup)
    requires other != uniqueId
    modifies ledger
    ensures Validate(receipt) == Ok ==>
      ValidReceipt(receipt) && res == Accepted(uniqueId) && mine == Found(Points(receipt))
    ensures Validate(receipt).Err? ==> res == Rejected(Validate(receipt).reason)
    ensures other in old(ledger.receiptPoints) ==> theirs == Found(old(ledger.receiptPoints)[other])
    ensures other !in old(ledger.receiptPoints) ==> theirs == NotFound
  {
    res := ledger.ProcessReceipt(receipt, uniqueId);
    mine := ledger.GetPoints(uniqueId);
    theirs := ledger.GetPoints(other);
  }
}
