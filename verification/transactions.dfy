/**
  The record loader of `leer_transacciones`: each row handed over by the CSV
  reader is validated on its own and either becomes a typed transaction, is
  skipped (a `ValueError` caught inside the loop), or stops the whole load
  (any other exception, which ends the process with exit status 1).
*/
module Transactions {
  import opened Outcomes
  import Decimal

  /** The two recognised values of the `tipo` column. */
  datatype Kind = Credit | Debit

  const CreditName: string := "Crédito"
  const DebitName: string := "Débito"

  function KindName(k: Kind): string {
    match k
    case Credit => CreditName
    case Debit => DebitName
  }

  /** Recognises a `tipo` text; only the two exact spellings are accepted. */
  function ParseKind(s: string): (r: Option<Kind>)
    ensures r.Some? <==> s == CreditName || s == DebitName
    ensures r.Some? ==> KindName(r.value) == s
  {
    if s == CreditName then Some(Credit)
    else if s == DebitName then Some(Debit)
    else None
  }

  /** Each kind's name is recognised as that kind. */
  lemma KindNameRoundTrip(k: Kind)
    ensures ParseKind(KindName(k)) == Some(k)
  {
  }

  /** A validated transaction. */
  datatype Tx = Tx(id: int, kind: Kind, amount: real)

  /**
    One cell of a row as the dictionary reader hands it over: the column is
    missing from the header (`Absent`, looking it up raises KeyError), the line
    is shorter than the header (`NoValue`, the reader fills in None), or it holds text.
  */
  datatype Cell = Absent | NoValue | Value(text: string)

  /** The three cells of a row the loader looks at. */
  datatype Row = Row(id: Cell, tipo: Cell, monto: Cell)

  /** Errors that escape the per-row handler and end the load. */
  datatype Fatal =
    | KeyError(column: string)   // the column is not in the header
    | TypeError(column: string)  // int()/float() applied to a missing (None) value

  /** Why a row was skipped: the ValueError raised for it. */
  datatype Rejection = BadId | BadAmount | BadKind

  datatype Verdict = Keep(tx: Tx) | Skip(reason: Rejection) | Abort(error: Fatal)

  /** Every cell of the row holds text: a line with at least as many fields as the header. */
  predicate WellFormed(row: Row) {
    row.id.Value? && row.tipo.Value? && row.monto.Value?
  }

  predicate IdParses(row: Row) {
    row.id.Value? && Decimal.ParseInt(row.id.text).Some?
  }

  predicate AmountParses(row: Row) {
    row.monto.Value? && Decimal.ParseNumber(row.monto.text).Some?
  }

  /** What makes a row acceptable, independent of the order the checks run in. */
  predicate Acceptable(row: Row) {
    && WellFormed(row)
    && Decimal.ParseInt(row.id.text).Some?
    && Decimal.ParseNumber(row.monto.text).Some?
    && ParseKind(row.tipo.text).Some?
  }

  /**
    The body of the loop over rows, in the order the source evaluates it: parse
    `id`, look up `tipo`, parse `monto`, then check `tipo` against the two names.
  */
  function Validate(row: Row): (v: Verdict)
    ensures v.Keep? <==> Acceptable(row)
    ensures v.Keep? ==>
      && Decimal.ParseInt(row.id.text) == Some(v.tx.id)
      && Decimal.ParseNumber(row.monto.text) == Some(v.tx.amount)
      && KindName(v.tx.kind) == row.tipo.text
    ensures v.Abort? ==> !WellFormed(row)
    // `int(fila["id"])` runs first: a missing column or value escapes, a bad literal is caught.
    ensures row.id.Absent? ==> v == Abort(KeyError("id"))
    ensures row.id.NoValue? ==> v == Abort(TypeError("id"))
    ensures v == Skip(BadId) <==> row.id.Value? && Decimal.ParseInt(row.id.text).None?
    // Only once the id parsed are `tipo` and then `monto` looked up.
    ensures IdParses(row) && row.tipo.Absent? ==> v == Abort(KeyError("tipo"))
    ensures IdParses(row) && !row.tipo.Absent? && row.monto.Absent? ==> v == Abort(KeyError("monto"))
    ensures IdParses(row) && !row.tipo.Absent? && row.monto.NoValue? ==> v == Abort(TypeError("monto"))
    ensures v == Skip(BadAmount) <==>
      IdParses(row) && !row.tipo.Absent? && row.monto.Value? && Decimal.ParseNumber(row.monto.text).None?
    // The `tipo` test comes last; a None value there is simply not one of the two names.
    ensures v == Skip(BadKind) <==>
      IdParses(row) && !row.tipo.Absent? && AmountParses(row)
      && !(row.tipo.Value? && ParseKind(row.tipo.text).Some?)
  {
    match row.id
    case Absent => Abort(KeyError("id"))
    case NoValue => Abort(TypeError("id"))
    case Value(idText) =>
      match Decimal.ParseInt(idText)
      case None => Skip(BadId)
      case Some(id) =>
        if row.tipo.Absent? then Abort(KeyError("tipo"))
        else match row.monto
          case Absent => Abort(KeyError("monto"))
          case NoValue => Abort(TypeError("monto"))
          case Value(amountText) =>
            match Decimal.ParseNumber(amountText)
            case None => Skip(BadAmount)
            case Some(amount) =>
              var kind := if row.tipo.Value? then ParseKind(row.tipo.text) else None;
              match kind
              case None => Skip(BadKind)
              case Some(k) => Keep(Tx(id, k, amount))
  }

  /**
    `leer_transacciones` after the file is opened: the rows are processed in
    order, kept records are appended, skipped rows contribute nothing, and the
    first fatal error ends the load.
  */
  function Load(rows: seq<Row>): (r: Result<seq<Tx>, Fatal>)
    ensures r.Success? ==> |r.value| <= |rows|
  {
    if |rows| == 0 then Success([])
    else Step(Load(rows[..|rows| - 1]), Validate(rows[|rows| - 1]))
  }

  /** One iteration of the loop: fold a row's verdict into the records loaded so far. */
  function Step(sofar: Result<seq<Tx>, Fatal>, v: Verdict): (r: Result<seq<Tx>, Fatal>)
    ensures sofar.Failure? ==> r == sofar
    ensures r.Success? ==> sofar.Success? && sofar.value <= r.value
    ensures r.Success? ==> |r.value| == |sofar.value| + (if v.Keep? then 1 else 0)
    ensures sofar.Success? ==> (r.Failure? <==> v.Abort?)
  {
    match sofar
    case Failure(_) => sofar
    case Success(done) =>
      match v
      case Keep(t) => Success(done + [t])
      case Skip(_) => Success(done)
      case Abort(e) => Failure(e)
  }

  /** Loading one more row: what that row alone contributes. */
  lemma LoadAppend(rows: seq<Row>, row: Row)
    ensures Load(rows).Failure? ==> Load(rows + [row]) == Load(rows)
    ensures Load(rows).Success? && Validate(row).Keep? ==>
      Load(rows + [row]) == Success(Load(rows).value + [Validate(row).tx])
    ensures Validate(row).Skip? ==> Load(rows + [row]) == Load(rows)
    ensures Load(rows).Success? && Validate(row).Abort? ==>
      Load(rows + [row]) == Failure(Validate(row).error)
  {
    assert (rows + [row])[..|rows|] == rows;
    assert Load(rows + [row]) == Step(Load(rows), Validate(row));
  }

  /** Sequencing two loads: the first failure wins, otherwise the outputs are joined. */
  function Then(first: Result<seq<Tx>, Fatal>, second: Result<seq<Tx>, Fatal>): Result<seq<Tx>, Fatal> {
    if first.Failure? then first
    else if second.Failure? then second
    else Success(first.value + second.value)
  }

  /**
    A row's contribution does not depend on the rows around it: loading a
    concatenation is loading each part and joining the results.
  */
  lemma {:induction false} LoadConcat(a: seq<Row>, b: seq<Row>)
    ensures Load(a + b) == Then(Load(a), Load(b))
  {
    if |b| == 0 {
      assert a + b == a;
      if Load(a).Success? {
        assert Load(a).value + [] == Load(a).value;
      }
    } else {
      var b', last := b[..|b| - 1], b[|b| - 1];
      assert a + b == (a + b') + [last];
      assert b == b' + [last];
      LoadConcat(a, b');
      assert Load(a + b) == Step(Load(a + b'), Validate(last)) by {
        LoadAppend(a + b', last);
      }
      assert Load(b) == Step(Load(b'), Validate(last)) by {
        LoadAppend(b', last);
      }
      ThenStep(Load(a), Load(b'), Validate(last));
    }
  }

  lemma ThenStep(x: Result<seq<Tx>, Fatal>, y: Result<seq<Tx>, Fatal>, v: Verdict)
    ensures Step(Then(x, y), v) == Then(x, Step(y, v))
  {
    if x.Success? && y.Success? && v.Keep? {
      assert (x.value + y.value) + [v.tx] == x.value + (y.value + [v.tx]);
    }
  }

  /** The load succeeds exactly when no row raises an error the loop does not catch. */
  lemma {:induction false} LoadSucceedsIff(rows: seq<Row>)
    ensures Load(rows).Success? <==> forall i :: 0 <= i < |rows| ==> !Validate(rows[i]).Abort?
  {
    if |rows| > 0 {
      var prefix, last := rows[..|rows| - 1], rows[|rows| - 1];
      LoadSucceedsIff(prefix);
      assert Load(rows).Success? <==> Load(prefix).Success? && !Validate(last).Abort? by {
        LoadLast(rows);
      }
      assert rows == prefix + [last];
      AllSnoc(rows, prefix, last, (r: Row) => !Validate(r).Abort?);
    }
  }

  /** A property holds of every element iff it holds of all but the last, and of the last. */
  lemma AllSnoc<T>(xs: seq<T>, prefix: seq<T>, last: T, p: T -> bool)
    requires xs == prefix + [last]
    ensures (forall i :: 0 <= i < |xs| ==> p(xs[i]))
        <==> (forall i :: 0 <= i < |prefix| ==> p(prefix[i])) && p(last)
  {
    assert forall i :: 0 <= i < |prefix| ==> xs[i] == prefix[i];
    assert xs[|prefix|] == last;
  }

  /** The last row is folded into the load of the rows before it. */
  lemma LoadLast(rows: seq<Row>)
    requires |rows| > 0
    ensures Load(rows) == Step(Load(rows[..|rows| - 1]), Validate(rows[|rows| - 1]))
  {
  }

  /** A file whose lines all carry the three columns never ends the load. */
  lemma WellFormedRowsLoad(rows: seq<Row>)
    requires forall i :: 0 <= i < |rows| ==> WellFormed(rows[i])
    ensures Load(rows).Success?
  {
    LoadSucceedsIff(rows);
  }

  /** On failure, the error is the one raised by the first aborting row. */
  lemma {:induction false} LoadFailsAtFirstAbort(rows: seq<Row>)
    requires Load(rows).Failure?
    ensures exists i :: (0 <= i < |rows| && Validate(rows[i]) == Abort(Load(rows).error)
      && forall j :: 0 <= j < i ==> !Validate(rows[j]).Abort?)
  {
    var prefix, last := rows[..|rows| - 1], rows[|rows| - 1];
    assert rows == prefix + [last];
    LoadAppend(prefix, last);
    if Load(prefix).Failure? {
      LoadFailsAtFirstAbort(prefix);
      var i :| 0 <= i < |prefix| && Validate(prefix[i]) == Abort(Load(prefix).error)
        && forall j :: 0 <= j < i ==> !Validate(prefix[j]).Abort?;
      assert Validate(rows[i]) == Abort(Load(rows).error);
    } else {
      LoadSucceedsIff(prefix);
      assert Validate(rows[|rows| - 1]) == Abort(Load(rows).error);
    }
  }

  /** Positions of the elements satisfying `keep`, in increasing order. */
  function Positions<T>(xs: seq<T>, keep: T -> bool): (ix: seq<nat>)
    ensures forall j :: 0 <= j < |ix| ==> ix[j] < |xs|
    ensures forall j, k :: 0 <= j < k < |ix| ==> ix[j] < ix[k]
    ensures forall i :: 0 <= i < |xs| ==> (i in ix <==> keep(xs[i]))
  {
    if |xs| == 0 then []
    else
      var prefix, n := xs[..|xs| - 1], |xs| - 1;
      var before := Positions(prefix, keep);
      assert forall i :: 0 <= i < n ==> xs[i] == prefix[i];
      if keep(xs[n]) then before + [n] else before
  }

  /** Positions of the acceptable rows, in increasing order. */
  function KeptPositions(rows: seq<Row>): (ix: seq<nat>)
    ensures forall j :: 0 <= j < |ix| ==> ix[j] < |rows|
    ensures forall j, k :: 0 <= j < k < |ix| ==> ix[j] < ix[k]
    ensures forall i :: 0 <= i < |rows| ==> (i in ix <==> Acceptable(rows[i]))
  {
    Positions(rows, Acceptable)
  }

  /**
    A successful load returns exactly the acceptable rows, each turned into its
    record, in input order: the output is the image of a subsequence of the input.
  */
  lemma {:induction false} LoadKeepsAcceptableRowsInOrder(rows: seq<Row>)
    requires Load(rows).Success?
    ensures |Load(rows).value| == |KeptPositions(rows)|
    ensures forall j :: 0 <= j < |KeptPositions(rows)| ==>
      Validate(rows[KeptPositions(rows)[j]]) == Keep(Load(rows).value[j])
  {
    if |rows| > 0 {
      var prefix, last := rows[..|rows| - 1], rows[|rows| - 1];
      assert Load(prefix).Success? && !Validate(last).Abort? by {
        LoadLast(rows);
      }
      LoadKeepsAcceptableRowsInOrder(prefix);
      var ix, ix' := KeptPositions(rows), KeptPositions(prefix);
      var out, out' := Load(rows).value, Load(prefix).value;
      var added := if Acceptable(last) then [Validate(last).tx] else [];
      assert out == out' + added by {
        LoadLast(rows);
      }
      assert ix == ix' + (if Acceptable(last) then [|prefix|] else []) by {
        assert rows == prefix + [last];
        PositionsAppend(prefix, last, Acceptable);
      }
      forall j | 0 <= j < |ix|
        ensures Validate(rows[ix[j]]) == Keep(out[j])
      {
        if j < |ix'| {
          assert rows[ix[j]] == prefix[ix'[j]] && out[j] == out'[j];
        } else {
          assert ix[j] == |prefix| && out[j] == Validate(last).tx;
        }
      }
    }
  }

  /** Appending an element extends the positions by its own position exactly when it is kept. */
  lemma PositionsAppend<T>(xs: seq<T>, x: T, keep: T -> bool)
    ensures Positions(xs + [x], keep) == Positions(xs, keep) + (if keep(x) then [|xs|] else [])
  {
    assert (xs + [x])[..|xs|] == xs;
  }

  /**
    Every record a load produces comes from one row of the input whose `id`
    and `monto` parse to the record's values and whose `tipo` names its kind.
  */
  lemma RecordsComeFromRows(rows: seq<Row>)
    requires Load(rows).Success?
    ensures forall t :: t in Load(rows).value ==> exists i :: (0 <= i < |rows| && Acceptable(rows[i])
      && Decimal.ParseInt(rows[i].id.text) == Some(t.id)
      && Decimal.ParseNumber(rows[i].monto.text) == Some(t.amount)
      && KindName(t.kind) == rows[i].tipo.text)
  {
    LoadKeepsAcceptableRowsInOrder(rows);
    var out, ix := Load(rows).value, KeptPositions(rows);
    forall t | t in out
      ensures exists i :: (0 <= i < |rows| && Acceptable(rows[i])
        && Decimal.ParseInt(rows[i].id.text) == Some(t.id)
        && Decimal.ParseNumber(rows[i].monto.text) == Some(t.amount)
        && KindName(t.kind) == rows[i].tipo.text)
    {
      var j :| 0 <= j < |out| && out[j] == t;
      assert Validate(rows[ix[j]]) == Keep(t);
    }
  }
}
