/** The point rules of `calculatePoint`, as specification functions over a
    receipt that has passed validation. The imperative scorer, which walks the
    retailer name and the items with an accumulator and stores the result, is
    `App.Ledger.CalculatePoint`; it is proved to compute `Points`. */
module Scorer {
  import opened Chars
  import opened Formats
  import opened Receipts
  import opened Validator

  // ---------------------------------------------------------------------------
  // Rule (a): one point per alphanumeric character of the retailer name

  function AlnumCount(s: string): nat
  {
    if s == [] then 0 else AlnumCount(s[..|s| - 1]) + (if IsAlnum(s[|s| - 1]) then 1 else 0)
  }

  /** The retailer contributes between nothing and its length: all of it exactly
      when every character is alphanumeric, nothing exactly when none is. */
  lemma {:induction false} AlnumCountBounds(s: string)
    ensures AlnumCount(s) <= |s|
    ensures AlnumCount(s) == |s| <==> forall i | 0 <= i < |s| :: IsAlnum(s[i])
    ensures AlnumCount(s) == 0 <==> forall i | 0 <= i < |s| :: !IsAlnum(s[i])
  {
    if s != [] {
      var init := s[..|s| - 1];
      AlnumCountBounds(init);
      assert forall i | 0 <= i < |init| :: init[i] == s[i];
    }
  }

  // ---------------------------------------------------------------------------
  // Rule (b): six points when the day of the month is odd

  function OddDayPoints(date: string): nat
    requires ValidDate(date)
  {
    if DayOf(date) % 2 == 1 then 6 else 0
  }

  // ---------------------------------------------------------------------------
  // Rule (c): ten points when the hour is 14 or 15

  /** The outcome of Python's `int()` on a piece of text. */
  datatype Parsed = Parsed(value: nat) | ValueError

  /** `int(s)` for the texts the scorer hands it: a non-empty run of ASCII digits
      reads as its value; text holding any other character is refused. (`int()`
      also takes a sign and surrounding whitespace; no accepted time or date
      puts either in the place the scorer reads.) */
  function ParseInt(s: string): Parsed
  {
    if |s| > 0 && AllDigits(s) then Parsed(DigitsValue(s)) else ValueError
  }

  /** The hour as line 110 reads it: `int(purchaseTime[:2])`. */
  function HourAsWritten(t: string): Parsed
  {
    ParseInt(if |t| < 2 then t else t[..2])
  }

  /** On an accepted time, the source's reading of the hour fails exactly when
      the hour has one digit, and otherwise agrees with the hour before the colon. */
  lemma HourAsWrittenFailsOnSingleDigit(t: string)
    requires ValidTime(t)
    ensures HourAsWritten(t) == ValueError <==> t[1] == ':'
    ensures t[1] != ':' ==> HourAsWritten(t) == Parsed(HourOf(t))
  {
    if t[1] != ':' {
      assert t[..2] == t[..|t| - 3];
    }
  }

  /** `"9:00"` passes the time check, yet the scorer's `int("9:")` raises. */
  lemma SingleDigitHourRaises()
    ensures ValidTime("9:00")
    ensures HourAsWritten("9:00") == ValueError
  {
    HourAsWrittenFailsOnSingleDigit("9:00");
  }

  /** Rule (c) with the hour read up to the colon, so that every accepted time is scored. */
  function AfternoonPoints(time: string): nat
    requires ValidTime(time)
  {
    if 14 <= HourOf(time) < 16 then 10 else 0
  }

  // ---------------------------------------------------------------------------
  // Rule (d): five points per pair of items

  function PairPoints(count: nat): nat
  {
    (count / 2) * 5
  }

  // ---------------------------------------------------------------------------
  // Rule (e): description length a multiple of three

  /** The index of the first non-whitespace character at or after `i`, or `|s|`. */
  function SkipSpaces(s: string, i: nat): (k: nat)
    requires i <= |s|
    ensures i <= k <= |s|
    ensures forall m | i <= m < k :: IsSpace(s[m])
    ensures k == |s| || !IsSpace(s[k])
    decreases |s| - i
  {
    if i < |s| && IsSpace(s[i]) then SkipSpaces(s, i + 1) else i
  }

  /** The end of `s[lo..j]` once its trailing whitespace is cut. */
  function TrimEnd(s: string, lo: nat, j: nat): (k: nat)
    requires lo <= j <= |s|
    ensures lo <= k <= j
    ensures forall m | k <= m < j :: IsSpace(s[m])
    ensures k == lo || !IsSpace(s[k - 1])
  {
    if lo < j && IsSpace(s[j - 1]) then TrimEnd(s, lo, j - 1) else j
  }

  /** `r` is `s` with exactly its first `i` characters and its trailing whitespace cut:
      what is cut is whitespace and `r` neither starts nor ends with whitespace. */
  predicate StrippedAt(s: string, i: int, r: string)
  {
    && 0 <= i <= |s| - |r|
    && r == s[i..i + |r|]
    && (forall k | 0 <= k < i :: IsSpace(s[k]))
    && (forall k | i + |r| <= k < |s| :: IsSpace(s[k]))
    && (r == [] || (!IsSpace(r[0]) && !IsSpace(r[|r| - 1])))
  }

  /** `str.strip()`: the text between the leading and the trailing whitespace. */
  function Strip(s: string): string
  {
    var i := SkipSpaces(s, 0);
    s[i..TrimEnd(s, i, |s|)]
  }

  /** What `Strip` removes is whitespace, and what it keeps neither starts nor
      ends with whitespace. */
  lemma StripIsStripped(s: string)
    ensures exists i :: StrippedAt(s, i, Strip(s))
  {
    var i := SkipSpaces(s, 0);
    var j := TrimEnd(s, i, |s|);
    var r := s[i..j];
    assert |r| == j - i && r == s[i..i + |r|];
    assert Strip(s) == r;
    assert StrippedAt(s, i, Strip(s));
  }

  predicate PricesAreAmounts(items: seq<Item>)
  {
    forall k | 0 <= k < |items| :: IsAmount(items[k].price)
  }

  /** `math.ceil(float(price) * 0.2)` computed exactly on cents: `ceil(cents / 500)`. */
  function CeilFifth(cents: nat): (b: nat)
    ensures b * 500 >= cents
    ensures b == 0 || (b - 1) * 500 < cents
  {
    (cents + 499) / 500
  }

  /** Rule (e) for one item. */
  function ItemBonus(item: Item): nat
    requires IsAmount(item.price)
  {
    if |Strip(item.shortDescription)| % 3 == 0 then CeilFifth(AmountCents(item.price)) else 0
  }

  /** An item earns nothing unless its stripped description's length is a multiple
      of three, and then the least whole number of points at least a fifth of its price. */
  lemma ItemBonusIsCeiling(item: Item)
    requires IsAmount(item.price)
    ensures |Strip(item.shortDescription)| % 3 != 0 ==> ItemBonus(item) == 0
    ensures |Strip(item.shortDescription)| % 3 == 0 ==>
      && ItemBonus(item) * 500 >= AmountCents(item.price)
      && (ItemBonus(item) == 0 || (ItemBonus(item) - 1) * 500 < AmountCents(item.price))
  {
  }

  /** Rule (e) over all items. */
  function DescriptionPoints(items: seq<Item>): nat
    requires PricesAreAmounts(items)
  {
    if items == [] then 0 else
      var init := items[..|items| - 1];
      assert forall k | 0 <= k < |init| :: init[k] == items[k];
      DescriptionPoints(init) + ItemBonus(items[|items| - 1])
  }

  lemma PricesAreAmountsAppend(a: seq<Item>, b: seq<Item>)
    requires PricesAreAmounts(a) && PricesAreAmounts(b)
    ensures PricesAreAmounts(a + b)
  {
    forall k | 0 <= k < |a + b| ensures IsAmount((a + b)[k].price) {
      if k >= |a| { assert (a + b)[k] == b[k - |a|]; }
    }
  }

  /** Rule (e) looks at each item on its own: splitting the list splits the points. */
  lemma {:induction false} DescriptionPointsAppend(a: seq<Item>, b: seq<Item>)
    requires PricesAreAmounts(a) && PricesAreAmounts(b)
    ensures PricesAreAmounts(a + b)
    ensures DescriptionPoints(a + b) == DescriptionPoints(a) + DescriptionPoints(b)
  {
    PricesAreAmountsAppend(a, b);
    if b == [] {
      assert a + b == a;
    } else {
      var b' := b[..|b| - 1];
      assert PricesAreAmounts(b') by {
        assert forall k | 0 <= k < |b'| :: b'[k] == b[k];
      }
      PricesAreAmountsAppend(a, b');
      DescriptionPointsAppend(a, b');
      var ab, last := a + b, b[|b| - 1];
      assert ab[..|ab| - 1] == a + b';
      assert ab[|ab| - 1] == last;
      calc {
        DescriptionPoints(ab);
        DescriptionPoints(a + b') + ItemBonus(last);
        DescriptionPoints(a) + DescriptionPoints(b') + ItemBonus(last);
        DescriptionPoints(a) + DescriptionPoints(b);
      }
    }
  }

  // ---------------------------------------------------------------------------
  // Rules (f) and (g): round-dollar and quarter totals

  /** `total.split('.')[-1]`: the text after the last dot, or all of it when there is none. */
  function LastField(s: string): (r: string)
    ensures |r| <= |s| && r == s[|s| - |r|..]
    ensures '.' !in r
    ensures |r| == |s| || s[|s| - |r| - 1] == '.'
  {
    if s == [] then []
    else if s[|s| - 1] == '.' then []
    else LastField(s[..|s| - 1]) + [s[|s| - 1]]
  }

  /** `int(total.split('.')[-1])`: on an accepted amount, the cents modulo a dollar. */
  function CentsField(total: string): (c: nat)
    requires IsAmount(total)
    ensures c == AmountCents(total) % 100
  {
    var n := |total|;
    assert LastField(total[..n - 2]) == [] by {
      assert total[..n - 2][..n - 3] == total[..n - 3];
    }
    assert LastField(total[..n - 1]) == [total[n - 2]] by {
      assert total[..n - 1][..n - 2] == total[..n - 2];
    }
    var f := LastField(total);
    assert f == total[n - 2..];
    AmountFraction(total);
    DigitsValue(f)
  }

  function RoundDollarPoints(total: string): nat
    requires IsAmount(total)
  {
    if CentsField(total) == 0 then 50 else 0
  }

  function QuarterPoints(total: string): nat
    requires IsAmount(total)
  {
    if CentsField(total) % 25 == 0 then 25 else 0
  }

  /** The two total rules stack: cents of 00 earn 50 + 25 = 75, cents of 25, 50
      or 75 earn exactly 25, and any other cents earn nothing. */
  lemma TotalBonus(total: string)
    requires IsAmount(total)
    ensures var f := AmountCents(total) % 100;
      RoundDollarPoints(total) + QuarterPoints(total) ==
        if f == 0 then 75 else if f == 25 || f == 50 || f == 75 then 25 else 0
  {
    var f := CentsField(total);
    assert f % 25 == 0 <==> f == 0 || f == 25 || f == 50 || f == 75 by {
      assert f == 25 * (f / 25) + f % 25;
      assert f / 25 < 4;
    }
  }

  /** Reading only the two cents digits decides rule (g) as the whole total would:
      the total is a whole number of quarters exactly when its cents digits are. */
  lemma QuarterRuleOnWholeTotal(total: string)
    requires IsAmount(total)
    ensures QuarterPoints(total) == if AmountCents(total) % 25 == 0 then 25 else 0
  {
    QuartersOfDollars(AmountCents(total));
  }

  /** A whole number of dollars is a whole number of quarters. */
  lemma QuartersOfDollars(c: nat)
    ensures c % 25 == (c % 100) % 25
  {
    var f := c % 100;
    assert c == 25 * (4 * (c / 100) + f / 25) + f % 25;
  }

  // ---------------------------------------------------------------------------
  // The whole score

  lemma ValidReceiptPrices(r: Receipt)
    requires ValidReceipt(r)
    ensures PricesAreAmounts(r.items)
  {
    assert forall k | 0 <= k < |r.items| :: ItemOk(r.items[k]);
  }

  /** The points of a validated receipt: the sum of the seven rule contributions. */
  function Points(r: Receipt): nat
    requires ValidReceipt(r)
  {
    ValidReceiptPrices(r);
    AlnumCount(r.retailer)
    + OddDayPoints(r.purchaseDate)
    + AfternoonPoints(r.purchaseTime)
    + PairPoints(|r.items|)
    + DescriptionPoints(r.items)
    + RoundDollarPoints(r.total)
    + QuarterPoints(r.total)
  }
}
