/**
  The loader and the statistics together: how one more input row moves the
  statistics, and whole runs over small example files.
*/
module Pipeline {
  import opened Outcomes
  import opened Transactions
  import opened Aggregates
  import Decimal

  /** An acceptable row moves the balance by its signed amount and bumps one count. */
  lemma AcceptedRowUpdatesStatistics(rows: seq<Row>, row: Row)
    requires Load(rows).Success? && Validate(row).Keep?
    ensures Load(rows + [row]).Success?
    ensures Balance(Load(rows + [row]).value) == Balance(Load(rows).value) + SignedAmount(Validate(row).tx)
    ensures Count(Load(rows + [row]).value, Validate(row).tx.kind) == Count(Load(rows).value, Validate(row).tx.kind) + 1
  {
    LoadAppend(rows, row);
    var before, t := Load(rows).value, Validate(row).tx;
    BalanceConcat(before, [t]);
    assert Balance([t]) == SignedAmount(t) by {
      assert [t][1..] == [];
    }
    CountConcat(before, [t], t.kind);
    assert [t][1..] == [];
  }

  /** A row that is skipped leaves every statistic exactly as it was. */
  lemma SkippedRowChangesNothing(rows: seq<Row>, row: Row)
    requires Load(rows).Success? && Validate(row).Skip?
    ensures Load(rows + [row]).Success?
    ensures Balance(Load(rows + [row]).value) == Balance(Load(rows).value)
    ensures Counts(Load(rows + [row]).value) == Counts(Load(rows).value)
    ensures |Load(rows).value| > 0 ==> Largest(Load(rows + [row]).value) == Largest(Load(rows).value)
  {
    LoadAppend(rows, row);
  }

  const ExampleRows: seq<Row> := [
    Row(Value("1"), Value("Crédito"), Value("100.00")),
    Row(Value("2"), Value("Débito"), Value("40.00")),
    Row(Value("3"), Value("Crédito"), Value("-1,bad"))
  ]

  /** The same input when the third line is read as four cells, so `monto` is "-1". */
  const ExampleRowsSplit: seq<Row> := [
    Row(Value("1"), Value("Crédito"), Value("100.00")),
    Row(Value("2"), Value("Débito"), Value("40.00")),
    Row(Value("3"), Value("Crédito"), Value("-1"))
  ]

  lemma SmallIntegers()
    ensures Decimal.ParseInt("1") == Some(1)
    ensures Decimal.ParseInt("2") == Some(2)
    ensures Decimal.ParseInt("3") == Some(3)
    ensures Decimal.ParseInt("-1") == Some(-1)
  {
    assert Decimal.DigitsValue("1") == 1;
    assert Decimal.DigitsValue("2") == 2;
    assert Decimal.DigitsValue("3") == 3;
    assert Decimal.SplitSign("-1") == (true, "1");
  }

  lemma SomeDigitStrings()
    ensures Decimal.AllDigits("100") && Decimal.DigitsValue("100") == 100
    ensures Decimal.AllDigits("40") && Decimal.DigitsValue("40") == 40
    ensures Decimal.AllDigits("00") && Decimal.DigitsValue("00") == 0
  {
    assert "100"[..2] == "10" && "10"[..1] == "1";
    assert "40"[..1] == "4";
    assert "00"[..1] == "0";
  }

  /** A whole number written with two zero decimals reads as that number. */
  lemma TwoZeroDecimals(w: string, n: nat)
    requires |w| > 0 && Decimal.AllDigits(w) && Decimal.DigitsValue(w) == n
    ensures Decimal.ParseNumber(w + ".00") == Some(n as real)
  {
    var zeros := "00";
    assert Decimal.AllDigits(zeros) && Decimal.DigitsValue(zeros) == 0 by {
      SomeDigitStrings();
    }
    assert Decimal.PositionalValue(w, zeros) == n as real;
    assert w + ".00" == w + "." + zeros;
    Decimal.FractionValue(w, zeros);
  }

  lemma HundredParses()
    ensures Decimal.ParseNumber("100.00") == Some(100.0)
  {
    assert Decimal.AllDigits("100") && Decimal.DigitsValue("100") == 100 by {
      SomeDigitStrings();
    }
    assert "100.00" == "100" + ".00";
    TwoZeroDecimals("100", 100);
  }

  lemma FortyParses()
    ensures Decimal.ParseNumber("40.00") == Some(40.0)
  {
    assert Decimal.AllDigits("40") && Decimal.DigitsValue("40") == 40 by {
      SomeDigitStrings();
    }
    assert "40.00" == "40" + ".00";
    TwoZeroDecimals("40", 40);
  }

  lemma BadAmountRejected()
    ensures Decimal.ParseNumber("-1,bad") == None
  {
    assert Decimal.SplitSign("-1,bad") == (true, "1,bad");
    assert !Decimal.AllDigits("1,bad") by {
      assert !Decimal.IsDigit("1,bad"[1]);
    }
    assert Decimal.FindDot("1,bad") == None;
  }

  /** A row whose three cells parse is kept with exactly the parsed values. */
  lemma KeptAs(row: Row, id: int, k: Kind, amount: real)
    requires row.id.Value? && row.tipo.Value? && row.monto.Value?
    requires Decimal.ParseInt(row.id.text) == Some(id)
    requires ParseKind(row.tipo.text) == Some(k)
    requires Decimal.ParseNumber(row.monto.text) == Some(amount)
    ensures Validate(row) == Keep(Tx(id, k, amount))
  {
  }

  lemma FirstExampleRow()
    ensures Validate(ExampleRows[0]) == Keep(Tx(1, Credit, 100.0))
  {
    SmallIntegers();
    HundredParses();
    KeptAs(ExampleRows[0], 1, Credit, 100.0);
  }

  lemma SecondExampleRow()
    ensures Validate(ExampleRows[1]) == Keep(Tx(2, Debit, 40.0))
  {
    SmallIntegers();
    FortyParses();
    KeptAs(ExampleRows[1], 2, Debit, 40.0);
  }

  lemma ThirdExampleRow()
    ensures Validate(ExampleRows[2]) == Skip(BadAmount)
    ensures Validate(ExampleRowsSplit[2]) == Keep(Tx(3, Credit, -1.0))
  {
    SmallIntegers();
    BadAmountRejected();
    Decimal.NumberAcceptsIntegers("-1", -1);
    KeptAs(ExampleRowsSplit[2], 3, Credit, -1.0);
  }

  /** Loading two rows that are both kept. */
  lemma LoadTwoKept(r0: Row, r1: Row)
    requires Validate(r0).Keep? && Validate(r1).Keep?
    ensures Load([r0, r1]) == Success([Validate(r0).tx, Validate(r1).tx])
  {
    var t0, t1 := Validate(r0).tx, Validate(r1).tx;
    assert [] + [r0] == [r0] && [r0] + [r1] == [r0, r1];
    assert Load([]) == Success([]);
    LoadAppend([], r0);
    assert [] + [t0] == [t0];
    LoadAppend([r0], r1);
    assert [t0] + [t1] == [t0, t1];
  }

  /** Loading a third row after two kept ones: it is appended when kept, dropped when skipped. */
  lemma LoadThirdRow(r0: Row, r1: Row, r2: Row)
    ensures Validate(r0).Keep? && Validate(r1).Keep? && Validate(r2).Keep? ==>
      Load([r0, r1, r2]) == Success([Validate(r0).tx, Validate(r1).tx, Validate(r2).tx])
    ensures Validate(r0).Keep? && Validate(r1).Keep? && Validate(r2).Skip? ==>
      Load([r0, r1, r2]) == Success([Validate(r0).tx, Validate(r1).tx])
  {
    if !(Validate(r0).Keep? && Validate(r1).Keep?) {
      return;
    }
    var t0, t1 := Validate(r0).tx, Validate(r1).tx;
    assert Load([r0, r1]) == Success([t0, t1]) by {
      LoadTwoKept(r0, r1);
    }
    assert Load([r0, r1, r2]) == Step(Success([t0, t1]), Validate(r2)) by {
      assert [r0, r1] + [r2] == [r0, r1, r2];
      LoadAppend([r0, r1], r2);
    }
    if Validate(r2).Keep? {
      assert [t0, t1] + [Validate(r2).tx] == [t0, t1, Validate(r2).tx];
    }
  }

  lemma ExampleLoad()
    ensures Load(ExampleRows) == Success([Tx(1, Credit, 100.0), Tx(2, Debit, 40.0)])
  {
    var r0, r1, r2 := ExampleRows[0], ExampleRows[1], ExampleRows[2];
    assert Validate(r0).Keep? && Validate(r0).tx == Tx(1, Credit, 100.0) by {
      FirstExampleRow();
    }
    assert Validate(r1).Keep? && Validate(r1).tx == Tx(2, Debit, 40.0) by {
      SecondExampleRow();
    }
    assert Validate(r2).Skip? by {
      ThirdExampleRow();
    }
    assert ExampleRows == [r0, r1, r2];
    LoadThirdRow(r0, r1, r2);
  }

  lemma ExampleLoadWithExtraField()
    ensures Load(ExampleRowsSplit)
         == Success([Tx(1, Credit, 100.0), Tx(2, Debit, 40.0), Tx(3, Credit, -1.0)])
  {
    var r0, r1, r2 := ExampleRowsSplit[0], ExampleRowsSplit[1], ExampleRowsSplit[2];
    assert Validate(r0).Keep? && Validate(r0).tx == Tx(1, Credit, 100.0) by {
      assert r0 == ExampleRows[0];
      FirstExampleRow();
    }
    assert Validate(r1).Keep? && Validate(r1).tx == Tx(2, Debit, 40.0) by {
      assert r1 == ExampleRows[1];
      SecondExampleRow();
    }
    assert Validate(r2).Keep? && Validate(r2).tx == Tx(3, Credit, -1.0) by {
      ThirdExampleRow();
    }
    assert ExampleRowsSplit == [r0, r1, r2];
    LoadThirdRow(r0, r1, r2);
  }

  /**
    An example file in which "-1,bad" is held in one `monto` cell: the third
    row is skipped, the balance is 60, the largest is id 1 with 100, and there
    is one record of each kind.
  */
  lemma ExampleRun()
    ensures Load(ExampleRows) == Success([Tx(1, Credit, 100.0), Tx(2, Debit, 40.0)])
    ensures Balance(Load(ExampleRows).value) == 60.0
    ensures Largest(Load(ExampleRows).value) == (1, 100.0)
    ensures Counts(Load(ExampleRows).value) == (1, 1)
  {
    ExampleLoad();
    ExampleStatistics();
  }

  lemma ExampleStatistics()
    ensures Balance([Tx(1, Credit, 100.0), Tx(2, Debit, 40.0)]) == 60.0
    ensures Largest([Tx(1, Credit, 100.0), Tx(2, Debit, 40.0)]) == (1, 100.0)
    ensures Counts([Tx(1, Credit, 100.0), Tx(2, Debit, 40.0)]) == (1, 1)
  {
    var t0, t1 := Tx(1, Credit, 100.0), Tx(2, Debit, 40.0);
    var out := [t0, t1];
    assert out[1..] == [t1] && [t1][1..] == [];
    assert Total([t1], Credit) == 0.0 && Total([t1], Debit) == 40.0;
    assert Total(out, Credit) == 100.0 && Total(out, Debit) == 40.0;
    assert Count(out, Credit) == 1 && Count(out, Debit) == 1;
    assert out[..1] == [t0];
  }

  /**
    The same line split into four cells: `monto` holds "-1", which parses, so the
    row is kept with a negative amount and the balance becomes 59.
  */
  lemma ExampleRunWithExtraField()
    ensures Load(ExampleRowsSplit)
         == Success([Tx(1, Credit, 100.0), Tx(2, Debit, 40.0), Tx(3, Credit, -1.0)])
    ensures Balance(Load(ExampleRowsSplit).value) == 59.0
  {
    ExampleLoadWithExtraField();
    SplitExampleBalance();
  }

  lemma SplitExampleBalance()
    ensures Balance([Tx(1, Credit, 100.0), Tx(2, Debit, 40.0), Tx(3, Credit, -1.0)]) == 59.0
  {
    var t0, t1, t2 := Tx(1, Credit, 100.0), Tx(2, Debit, 40.0), Tx(3, Credit, -1.0);
    assert Balance([t0, t1]) == 60.0 by {
      ExampleStatistics();
    }
    assert Balance([t2]) == -1.0 by {
      assert [t2][1..] == [];
    }
    assert Balance([t0, t1, t2]) == Balance([t0, t1]) + Balance([t2]) by {
      assert [t0, t1] + [t2] == [t0, t1, t2];
      BalanceConcat([t0, t1], [t2]);
    }
  }

  /** A header without `monto` ends the load at the first row whose id parses. */
  lemma MissingColumnIsFatal()
    ensures Load([Row(Value("x"), Value("Crédito"), Absent), Row(Value("7"), Value("Crédito"), Absent)])
         == Failure(KeyError("monto"))
  {
    var r0, r1 := Row(Value("x"), Value("Crédito"), Absent), Row(Value("7"), Value("Crédito"), Absent);
    assert Validate(r0) == Skip(BadId) by {
      assert !Decimal.IsDigit("x"[0]);
    }
    assert Validate(r1) == Abort(KeyError("monto")) by {
      assert Decimal.DigitsValue("7") == 7;
    }
    assert [] + [r0] == [r0] && [r0] + [r1] == [r0, r1];
    LoadAppend([], r0);
    LoadAppend([r0], r1);
  }

  /**
    A line that stops before `monto` is fatal only when its id parses: a bad id
    is rejected before `monto` is read.
  */
  lemma ShortLine()
    ensures Validate(Row(Value("abc"), Value("Crédito"), NoValue)) == Skip(BadId)
    ensures Validate(Row(Value("7"), Value("Crédito"), NoValue)) == Abort(TypeError("monto"))
  {
    assert !Decimal.IsDigit("abc"[0]);
    assert Decimal.DigitsValue("7") == 7;
  }
}
