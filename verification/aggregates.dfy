/**
  The three statistics computed over the loaded records: `calcular_balance`,
  `contar_transacciones` and `transaccion_mayor`.
*/
module Aggregates {
  import opened Transactions

  /** Sum of the amounts of the records of one kind (the generator sums of the source). */
  function Total(s: seq<Tx>, k: Kind): (r: real)
    ensures (forall i :: 0 <= i < |s| ==> s[i].kind != k) ==> r == 0.0
    ensures (forall i :: 0 <= i < |s| ==> s[i].amount >= 0.0) ==> r >= 0.0
  {
    if |s| == 0 then 0.0
    else (if s[0].kind == k then s[0].amount else 0.0) + Total(s[1..], k)
  }

  /** `calcular_balance`: total credited minus total debited. */
  function Balance(s: seq<Tx>): (r: real)
    ensures |s| == 0 ==> r == 0.0
  {
    Total(s, Credit) - Total(s, Debit)
  }

  /** How a single record moves the balance: credits add, debits subtract. */
  function SignedAmount(t: Tx): real {
    match t.kind
    case Credit => t.amount
    case Debit => -t.amount
  }

  /** Reference definition: the running net of the signed amounts. */
  function NetFlow(s: seq<Tx>): real {
    if |s| == 0 then 0.0 else SignedAmount(s[0]) + NetFlow(s[1..])
  }

  /** The two per-kind sums, subtracted, agree with summing the signed amounts. */
  lemma {:induction false} BalanceIsNetFlow(s: seq<Tx>)
    ensures Balance(s) == NetFlow(s)
  {
    if |s| > 0 {
      BalanceIsNetFlow(s[1..]);
    }
  }

  lemma {:induction false} TotalConcat(a: seq<Tx>, b: seq<Tx>, k: Kind)
    ensures Total(a + b, k) == Total(a, k) + Total(b, k)
  {
    if |a| == 0 {
      assert a + b == b;
    } else {
      assert (a + b)[1..] == a[1..] + b;
      TotalConcat(a[1..], b, k);
    }
  }

  /** The balance of a concatenation is the sum of the balances. */
  lemma BalanceConcat(a: seq<Tx>, b: seq<Tx>)
    ensures Balance(a + b) == Balance(a) + Balance(b)
  {
    TotalConcat(a, b, Credit);
    TotalConcat(a, b, Debit);
  }

  /** Number of records of one kind (the `sum(1 for ...)` of the source). */
  function Count(s: seq<Tx>, k: Kind): (n: nat)
    ensures n <= |s|
    ensures n == 0 <==> forall i :: 0 <= i < |s| ==> s[i].kind != k
  {
    if |s| == 0 then 0
    else (if s[0].kind == k then 1 else 0) + Count(s[1..], k)
  }

  lemma {:induction false} CountsCover(s: seq<Tx>)
    ensures Count(s, Credit) + Count(s, Debit) == |s|
  {
    if |s| > 0 {
      CountsCover(s[1..]);
    }
  }

  /**
    `contar_transacciones`: credits and debits counted separately; since every
    record is one or the other, the two counts add up to the number of records.
  */
  function Counts(s: seq<Tx>): (r: (nat, nat))
    ensures r.0 + r.1 == |s|
    ensures r.0 == 0 <==> forall i :: 0 <= i < |s| ==> s[i].kind == Debit
    ensures r.1 == 0 <==> forall i :: 0 <= i < |s| ==> s[i].kind == Credit
  {
    CountsCover(s);
    (Count(s, Credit), Count(s, Debit))
  }

  lemma {:induction false} CountConcat(a: seq<Tx>, b: seq<Tx>, k: Kind)
    ensures Count(a + b, k) == Count(a, k) + Count(b, k)
  {
    if |a| == 0 {
      assert a + b == b;
    } else {
      assert (a + b)[1..] == a[1..] + b;
      CountConcat(a[1..], b, k);
    }
  }

  /** Position `k` holds a largest amount, and every earlier amount is strictly smaller. */
  ghost predicate IsFirstMax(s: seq<Tx>, k: int) {
    && 0 <= k < |s|
    && (forall j :: 0 <= j < |s| ==> s[j].amount <= s[k].amount)
    && (forall j :: 0 <= j < k ==> s[j].amount < s[k].amount)
  }

  /**
    The position `max(..., key=monto)` settles on: scanning left to right, the
    current best is replaced only by a strictly larger amount.
  */
  function LargestPosition(s: seq<Tx>): (k: nat)
    requires |s| > 0
    ensures IsFirstMax(s, k)
    ensures forall i :: IsFirstMax(s, i) ==> i == k
  {
    if |s| == 1 then 0
    else
      var best := LargestPosition(s[..|s| - 1]);
      if s[|s| - 1].amount > s[best].amount then |s| - 1 else best
  }

  /**
    `transaccion_mayor`: the id and amount of the first record with the largest
    amount. An empty sequence is excluded, as `max` raises on it.
  */
  function Largest(s: seq<Tx>): (r: (int, real))
    requires |s| > 0
    ensures exists i :: IsFirstMax(s, i) && r == (s[i].id, s[i].amount)
    ensures forall t :: t in s ==> t.amount <= r.1
  {
    var k := LargestPosition(s);
    (s[k].id, s[k].amount)
  }

  /** Feeding one more record to the scan: it wins only when strictly larger. */
  lemma LargestAppend(s: seq<Tx>, t: Tx)
    requires |s| > 0
    ensures Largest(s + [t]) == if t.amount > Largest(s).1 then (t.id, t.amount) else Largest(s)
  {
    assert (s + [t])[..|s|] == s;
  }
}
