/** Worked receipts and field values, checked against the model. */
module Examples {
  import opened Chars
  import opened Formats
  import opened Receipts
  import opened Validator
  import opened Scorer

  /** The time check rejects an hour past 23 and a minute past 59, and accepts
      the hour with or without its leading zero. */
  lemma TimeExamples()
    ensures !ValidTime("25:00") && !ValidTime("12:60")
    ensures ValidTime("9:00") && ValidTime("09:00") && ValidTime("23:59")
    ensures HourOf("9:00") == 9 && HourOf("14:30") == 14
  {
    assert "9:00"[..1] == "9";
    assert "14:30"[..2] == "14";
    TwoDigitsValue("14");
  }

  /** February has a 29th day in years divisible by 4, except centuries not divisible by 400. */
  lemma LeapDayExamples()
    ensures ValidDate("2024-02-29") && ValidDate("2000-02-29")
  {
    DateDigits("2024-02-29");
    DateDigits("2000-02-29");
  }

  /** Other years, centuries among them, have no 29th of February. */
  lemma CommonYearExamples()
    ensures !ValidDate("2023-02-29") && !ValidDate("1900-02-29")
  {
    DateDigits("2023-02-29");
    DateDigits("1900-02-29");
  }

  /** A day past the month's end, a thirteenth month and the year zero are rejected. */
  lemma RejectedDateExamples()
    ensures !ValidDate("2023-02-30") && !ValidDate("2023-04-31")
    ensures !ValidDate("2023-13-01") && !ValidDate("0000-01-01")
  {
    DateDigits("2023-02-30");
    DateDigits("2023-04-31");
    DateDigits("2023-13-01");
    DateDigits("0000-01-01");
  }

  /** A price of 6.49 on a description whose stripped length is a multiple of
      three earns ceil(6.49 * 0.2) = ceil(1.298) = 2. */
  lemma PriceExample()
    ensures IsAmount("6.49") && AmountCents("6.49") == 649
    ensures ItemBonus(Item("  Pepsi Max ", "6.49")) == 2
  {
    var d := "  Pepsi Max ";
    assert SkipSpaces(d, 0) == 2 by {
      assert SkipSpaces(d, 2) == 2;
      assert SkipSpaces(d, 1) == 2;
    }
    assert TrimEnd(d, 2, 12) == 11 by {
      assert TrimEnd(d, 2, 11) == 11;
    }
    assert "6.49"[..1] == "6" && "6.49"[2..] == "49";
    TwoDigitsValue("49");
  }

  /** A total of 100.00 earns both the round-dollar and the quarter bonus. */
  lemma HundredDollarTotal()
    ensures IsAmount("100.00")
    ensures RoundDollarPoints("100.00") + QuarterPoints("100.00") == 75
  {
    assert "100.00"[4..] == "00";
    TwoDigitsValue("00");
    TotalBonus("100.00");
  }

  /** Target, 2022-01-01 at 13:01, one item "Pepsi - 12-oz" at 1.25, total 1.25. */
  const Target := Receipt("Target", "2022-01-01", "13:01", [Item("Pepsi - 12-oz", "1.25")], "1.25")

  lemma TargetDateIsValid()
    ensures ValidDate(Target.purchaseDate) && DayOf(Target.purchaseDate) == 1
    ensures OddDayPoints(Target.purchaseDate) == 6
  {
    DateDigits(Target.purchaseDate);
  }

  lemma TargetTimeIsValid()
    ensures ValidTime(Target.purchaseTime) && HourOf(Target.purchaseTime) == 13
    ensures AfternoonPoints(Target.purchaseTime) == 0
  {
    assert "13:01"[..2] == "13" && "13:01"[3..] == "01";
    TwoDigitsValue("13");
  }

  lemma TargetAmountsAreValid()
    ensures IsAmount(Target.total) && AmountCents(Target.total) == 125
    ensures ItemOk(Target.items[0]) && AmountCents(Target.items[0].price) == 125
  {
    assert Target.total[..1] == "1" && Target.total[2..] == "25";
    TwoDigitsValue("25");
  }

  /** Cents of 25 earn the quarter bonus but not the round-dollar one. */
  lemma TargetTotalPoints()
    ensures IsAmount(Target.total)
    ensures RoundDollarPoints(Target.total) == 0 && QuarterPoints(Target.total) == 25
  {
    TargetAmountsAreValid();
    assert CentsField(Target.total) == 25;
  }

  lemma TargetIsValid()
    ensures ValidReceipt(Target) && Validate(Target) == Ok
  {
    TargetDateIsValid();
    TargetTimeIsValid();
    TargetAmountsAreValid();
    ValidateAcceptsExactlyValid(Target);
  }

  /** Each of the six characters of "Target" is alphanumeric. */
  lemma TargetRetailerPoints()
    ensures AlnumCount(Target.retailer) == 6
  {
    AlnumCountBounds(Target.retailer);
    assert forall i | 0 <= i < 6 :: IsAlnum(Target.retailer[i]);
  }

  /** "Pepsi - 12-oz" has 13 characters, none of them cut by strip. */
  lemma TargetDescriptionPoints()
    requires PricesAreAmounts(Target.items)
    ensures DescriptionPoints(Target.items) == 0
  {
    var d := Target.items[0].shortDescription;
    assert SkipSpaces(d, 0) == 0;
    assert TrimEnd(d, 0, 13) == 13;
    assert |Strip(d)| == 13;
    assert Target.items[..0] == [];
  }

  /** The receipt scores 6 + 6 + 0 + 0 + 0 + 0 + 25 = 37 points. */
  lemma TargetScores37()
    ensures ValidReceipt(Target) && Points(Target) == 37
  {
    TargetIsValid();
    TargetDateIsValid();
    TargetTimeIsValid();
    TargetRetailerPoints();
    ValidReceiptPrices(Target);
    TargetDescriptionPoints();
    TargetTotalPoints();
    assert PairPoints(|Target.items|) == 0;
  }

  /** A time of 25:00 is a validation error, whatever else the receipt holds. */
  lemma LateTimeRejected()
    ensures Validate(Receipt("Target", "2022-01-01", "25:00", [Item("Pepsi - 12-oz", "1.25")], "1.25"))
      == Err(InvalidPurchaseTime)
  {
    DateDigits("2022-01-01");
  }
}
