/**
 The ledger of GeneralLedgerChartOfAccountsMatrix.ts, with balances in whole cents.
 */
module Ledger {

  datatype Side = DEBIT | CREDIT

  /** An account: its number, its normal balance and its current balance. */
  datatype Line = Line(number: string, normal: Side, balance: int)

  /** The chart of accounts as the source seeds it, in its order. */
  const SEED := [
    Line("1010", DEBIT, 145000000),
    Line("1100", DEBIT, 85000000),
    Line("1200", DEBIT, 320000000),
    Line("1300", DEBIT, 12000000),
    Line("1500", DEBIT, 450000000),
    Line("1600", CREDIT, -85000000),
    Line("2010", CREDIT, 62000000),
    Line("2100", CREDIT, 18000000),
    Line("2200", CREDIT, 9500000),
    Line("2500", CREDIT, 210000000),
    Line("3010", CREDIT, 300000000),
    Line("3100", CREDIT, 342500000),
    Line("4010", CREDIT, 580000000),
    Line("4020", CREDIT, 210000000),
    Line("5010", DEBIT, 145000000),
    Line("5020", DEBIT, 185000000),
    Line("6010", DEBIT, 24000000),
    Line("6020", DEBIT, 31000000)
  ]

  datatype Posting = Posting(debitAccount: string, creditAccount: string, amount: int)

  /** The position of the account of that number, or the number of accounts. */
  function Find(chart: seq<Line>, number: string): (i: nat)
    ensures i <= |chart| && (i < |chart| ==> chart[i].number == number)
    ensures forall k | 0 <= k < i :: chart[k].number != number
  {
    if chart == [] || chart[0].number == number then 0 else 1 + Find(chart[1..], number)
  }

  /** What an amount on one side does to an account. */
  function Booked(line: Line, side: Side, amount: int): Line {
    line.(balance := if line.normal == side then line.balance + amount else line.balance - amount)
  }

  predicate IsKnown(chart: seq<Line>, number: string) {
    Find(chart, number) < |chart|
  }

  predicate IsAccepted(chart: seq<Line>, p: Posting) {
    IsKnown(chart, p.debitAccount) && IsKnown(chart, p.creditAccount)
  }

  /** The chart after a posting; the debit is booked first, which matters when both sides name one account. */
  function Posted(chart: seq<Line>, p: Posting): (r: seq<Line>)
    ensures |r| == |chart|
  {
    if IsAccepted(chart, p) then
      var d, c := Find(chart, p.debitAccount), Find(chart, p.creditAccount);
      var debited := chart[d := Booked(chart[d], DEBIT, p.amount)];
      debited[c := Booked(debited[c], CREDIT, p.amount)]
    else chart
  }

  /** The sum of the balances of the first `n` accounts with that normal balance. */
  function Total(side: Side, chart: seq<Line>, n: nat): int
    requires n <= |chart|
  {
    if n == 0 then 0 else Total(side, chart, n - 1) + if chart[n - 1].normal == side then chart[n - 1].balance else 0
  }

  /** Debits less credits. */
  function Difference(chart: seq<Line>): int {
    Total(DEBIT, chart, |chart|) - Total(CREDIT, chart, |chart|)
  }

  function Abs(x: int): int {
    if x < 0 then -x else x
  }

  datatype TrialBalance = TrialBalance(isBalanced: bool, totalDebits: int, totalCredits: int, difference: int)

  class Account {
    const accountNumber: string
    const normalBalance: Side
    var currentBalance: int

    constructor (line: Line)
      ensures Value() == line
    {
      accountNumber, normalBalance, currentBalance := line.number, line.normal, line.balance;
    }

    function Value(): Line
      reads this
    {
      Line(accountNumber, normalBalance, currentBalance)
    }

    method Book(side: Side, amount: int)
      modifies this
      ensures Value() == Booked(old(Value()), side, amount)
    {
      if normalBalance == side {
        currentBalance := currentBalance + amount;
      } else {
        currentBalance := currentBalance - amount;
      }
    }
  }

  ghost function Values(accounts: seq<Account>): (r: seq<Line>)
    reads accounts
    ensures |r| == |accounts| && forall i | 0 <= i < |accounts| :: r[i] == accounts[i].Value()
  {
    if accounts == [] then [] else Values(accounts[..|accounts| - 1]) + [accounts[|accounts| - 1].Value()]
  }

  class GeneralLedgerChartOfAccountsMatrix {
    /** The accounts in the order in which they were entered. */
    const accounts: seq<Account>

    ghost predicate Valid() {
      forall i, j | 0 <= i < j < |accounts| :: accounts[i] != accounts[j]
    }

    ghost function View(): seq<Line>
      reads accounts
    {
      Values(accounts)
    }

    constructor ()
      ensures Valid() && View() == SEED
    {
      var entered: seq<Account> := [];
      for i := 0 to |SEED|
        invariant |entered| == i && forall k | 0 <= k < i :: fresh(entered[k]) && entered[k].Value() == SEED[k]
        invariant forall k, l | 0 <= k < l < i :: entered[k] != entered[l]
      {
        var account := new Account(SEED[i]);
        entered := entered + [account];
      }
      accounts := entered;
    }

    method Get(number: string) returns (i: nat)
      ensures i == Find(View(), number)
    {
      i := 0;
      while i < |accounts| && accounts[i].accountNumber != number
        invariant i <= |accounts| && forall k | 0 <= k < i :: View()[k].number != number
      {
        i := i + 1;
      }
    }

    method BookAt(i: nat, side: Side, amount: int)
      requires Valid() && i < |accounts|
      modifies accounts
      ensures View() == old(View())[i := Booked(old(View())[i], side, amount)]
    {
      accounts[i].Book(side, amount);
    }

    method PostJournalEntry(debitAccount: string, creditAccount: string, amount: int) returns (accepted: bool)
      requires Valid()
      modifies accounts
      ensures View() == Posted(old(View()), Posting(debitAccount, creditAccount, amount))
      ensures accepted == IsAccepted(old(View()), Posting(debitAccount, creditAccount, amount))
    {
      var debit := Get(debitAccount);
      var credit := Get(creditAccount);
      if debit == |accounts| || credit == |accounts| {
        return false;
      }
      BookAt(debit, DEBIT, amount);
      BookAt(credit, CREDIT, amount);
      return true;
    }

    method VerifyTrialBalance() returns (r: TrialBalance)
      ensures r == TrialBalance(Difference(View()) == 0, Total(DEBIT, View(), |View()|), Total(CREDIT, View(), |View()|),
                                Abs(Difference(View())))
    {
      var debits, credits := 0, 0;
      for i := 0 to |accounts|
        invariant debits == Total(DEBIT, View(), i) && credits == Total(CREDIT, View(), i)
      {
        if accounts[i].normalBalance == DEBIT {
          debits := debits + accounts[i].currentBalance;
        } else {
          credits := credits + accounts[i].currentBalance;
        }
      }
      var diff := Abs(debits - credits);
      r := TrialBalance(diff < 1, debits, credits, diff);
    }
  }

  // ---------- double entry ----------

  lemma {:induction false} TotalUpdate(side: Side, chart: seq<Line>, n: nat, i: nat, line: Line)
    requires n <= |chart| && i < |chart| && line.normal == chart[i].normal
    ensures Total(side, chart[i := line], n) ==
            Total(side, chart, n) + if i < n && line.normal == side then line.balance - chart[i].balance else 0
    decreases n
  {
    if n > 0 {
      TotalUpdate(side, chart, n - 1, i, line);
    }
  }

  lemma BookingChangesDifference(chart: seq<Line>, i: nat, side: Side, amount: int)
    requires i < |chart|
    ensures Difference(chart[i := Booked(chart[i], side, amount)]) ==
            Difference(chart) + if side == DEBIT then amount else -amount
  {
    var line := Booked(chart[i], side, amount);
    TotalUpdate(DEBIT, chart, |chart|, i, line);
    TotalUpdate(CREDIT, chart, |chart|, i, line);
  }

  lemma PostingKeepsDifference(chart: seq<Line>, p: Posting)
    ensures Difference(Posted(chart, p)) == Difference(chart)
  {
    if IsAccepted(chart, p) {
      var d, c := Find(chart, p.debitAccount), Find(chart, p.creditAccount);
      var debited := chart[d := Booked(chart[d], DEBIT, p.amount)];
      BookingChangesDifference(chart, d, DEBIT, p.amount);
      BookingChangesDifference(debited, c, CREDIT, p.amount);
    }
  }

  /** The chart after a sequence of postings. */
  function PostedAll(chart: seq<Line>, postings: seq<Posting>): (r: seq<Line>)
    ensures |r| == |chart|
  {
    if postings == [] then chart else Posted(PostedAll(chart, postings[..|postings| - 1]), postings[|postings| - 1])
  }

  /** No sequence of postings changes the difference between debits and credits. */
  lemma {:induction false} PostingsKeepDifference(chart: seq<Line>, postings: seq<Posting>)
    ensures Difference(PostedAll(chart, postings)) == Difference(chart)
    decreases |postings|
  {
    if postings != [] {
      PostingsKeepDifference(chart, postings[..|postings| - 1]);
      PostingKeepsDifference(PostedAll(chart, postings[..|postings| - 1]), postings[|postings| - 1]);
    }
  }

  lemma SeedBalanceSheet()
    ensures Total(DEBIT, SEED, 9) == 1012000000 && Total(CREDIT, SEED, 9) == 4500000
  {
    assert Total(DEBIT, SEED, 1) == 145000000 && Total(CREDIT, SEED, 1) == 0;
    assert Total(DEBIT, SEED, 2) == 230000000 && Total(CREDIT, SEED, 2) == 0;
    assert Total(DEBIT, SEED, 3) == 550000000 && Total(CREDIT, SEED, 3) == 0;
    assert Total(DEBIT, SEED, 4) == 562000000 && Total(CREDIT, SEED, 4) == 0;
    assert Total(DEBIT, SEED, 5) == 1012000000 && Total(CREDIT, SEED, 5) == 0;
    assert Total(DEBIT, SEED, 6) == 1012000000 && Total(CREDIT, SEED, 6) == -85000000;
    assert Total(DEBIT, SEED, 7) == 1012000000 && Total(CREDIT, SEED, 7) == -23000000;
    assert Total(DEBIT, SEED, 8) == 1012000000 && Total(CREDIT, SEED, 8) == -5000000;
  }

  lemma SeedDifference()
    ensures Difference(SEED) == -250_000_000
  {
    SeedBalanceSheet();
    assert Total(DEBIT, SEED, 10) == 1012000000 && Total(CREDIT, SEED, 10) == 214500000;
    assert Total(DEBIT, SEED, 11) == 1012000000 && Total(CREDIT, SEED, 11) == 514500000;
    assert Total(DEBIT, SEED, 12) == 1012000000 && Total(CREDIT, SEED, 12) == 857000000;
    assert Total(DEBIT, SEED, 13) == 1012000000 && Total(CREDIT, SEED, 13) == 1437000000;
    assert Total(DEBIT, SEED, 14) == 1012000000 && Total(CREDIT, SEED, 14) == 1647000000;
    assert Total(DEBIT, SEED, 15) == 1157000000 && Total(CREDIT, SEED, 15) == 1647000000;
    assert Total(DEBIT, SEED, 16) == 1342000000 && Total(CREDIT, SEED, 16) == 1647000000;
    assert Total(DEBIT, SEED, 17) == 1366000000 && Total(CREDIT, SEED, 17) == 1647000000;
    assert Total(DEBIT, SEED, 18) == 1397000000 && Total(CREDIT, SEED, 18) == 1647000000;
  }

  /** The seeded ledger is out of balance by 2,500,000 in every state that postings can reach. */
  lemma NeverBalances(postings: seq<Posting>)
    ensures Difference(PostedAll(SEED, postings)) == -250_000_000
  {
    SeedDifference();
    PostingsKeepDifference(SEED, postings);
  }

  /** The seeded numbers are distinct, so that searching for a number finds its one account. */
  lemma SeedNumbersAreDistinct()
    ensures forall i, j | 0 <= i < j < |SEED| :: SEED[i].number != SEED[j].number
  {
  }

  // ---------- what a posting does ----------

  /**
   A journal entry between two accounts raises an account by its amount on its normal side and lowers it on the other;
   nothing else changes, and nothing at all if an account is unknown or is on both sides.
   */
  lemma EntryMovesAmount(chart: seq<Line>, p: Posting, i: nat)
    requires i < |chart|
    ensures var before, after := chart[i], Posted(chart, p)[i];
            && after.number == before.number && after.normal == before.normal
            && after.balance - before.balance ==
               if !IsAccepted(chart, p) || p.debitAccount == p.creditAccount then 0
               else if i == Find(chart, p.debitAccount) then (if before.normal == DEBIT then p.amount else -p.amount)
               else if i == Find(chart, p.creditAccount) then (if before.normal == CREDIT then p.amount else -p.amount)
               else 0
  {
  }

  function Opposite(p: Posting): Posting {
    Posting(p.creditAccount, p.debitAccount, p.amount)
  }

  lemma {:induction false} SameNumbersSameFind(a: seq<Line>, b: seq<Line>, number: string)
    requires |a| == |b| && forall i | 0 <= i < |a| :: a[i].number == b[i].number
    ensures Find(a, number) == Find(b, number)
  {
    var i, j := Find(a, number), Find(b, number);
    assert i < |a| ==> b[i].number == number;
    assert j < |b| ==> a[j].number == number;
  }

  /** Each account after a posting: what is debited and what is credited count against each other. */
  lemma PostedAt(chart: seq<Line>, p: Posting, i: nat)
    requires i < |chart|
    ensures Posted(chart, p)[i] == Booked(chart[i], DEBIT, Net(chart, p, i))
  {
  }

  /** What a posting adds to the debit side of account `i`. */
  function Net(chart: seq<Line>, p: Posting, i: nat): int {
    if !IsAccepted(chart, p) then 0
    else (if i == Find(chart, p.debitAccount) then p.amount else 0) - if i == Find(chart, p.creditAccount) then p.amount else 0
  }

  lemma PostingKeepsFind(chart: seq<Line>, p: Posting, number: string)
    ensures Find(Posted(chart, p), number) == Find(chart, number)
  {
    SameNumbersSameFind(Posted(chart, p), chart, number);
  }

  lemma PostingKeepsNet(chart: seq<Line>, p: Posting, q: Posting, i: nat)
    ensures Net(Posted(chart, p), q, i) == Net(chart, q, i)
  {
    PostingKeepsFind(chart, p, q.debitAccount);
    PostingKeepsFind(chart, p, q.creditAccount);
  }

  lemma PostedTwiceAt(chart: seq<Line>, p: Posting, q: Posting, i: nat)
    requires i < |chart|
    ensures Posted(Posted(chart, p), q)[i] == Booked(chart[i], DEBIT, Net(chart, p, i) + Net(chart, q, i))
  {
    PostedAt(chart, p, i);
    PostedAt(Posted(chart, p), q, i);
    PostingKeepsNet(chart, p, q, i);
  }

  lemma OppositeNet(chart: seq<Line>, p: Posting, i: nat)
    ensures Net(chart, p, i) + Net(chart, Opposite(p), i) == 0
  {
  }

  /** Posting the same amount the other way round restores every balance. */
  lemma OppositePostingRestores(chart: seq<Line>, p: Posting)
    ensures Posted(Posted(chart, p), Opposite(p)) == chart
  {
    var restored := Posted(Posted(chart, p), Opposite(p));
    assert |restored| == |chart|;
    forall i | 0 <= i < |chart| ensures restored[i] == chart[i] {
      PostedTwiceAt(chart, p, Opposite(p), i);
      OppositeNet(chart, p, i);
    }
  }

  /** The order of two postings does not matter. */
  lemma PostingsCommute(chart: seq<Line>, p: Posting, q: Posting)
    ensures Posted(Posted(chart, p), q) == Posted(Posted(chart, q), p)
  {
    forall i | 0 <= i < |chart| ensures Posted(Posted(chart, p), q)[i] == Posted(Posted(chart, q), p)[i] {
      PostedTwiceAt(chart, p, q, i);
      PostedTwiceAt(chart, q, p, i);
    }
  }

  /** What a sequence of postings adds to the debit side of account `i`. */
  function NetAll(chart: seq<Line>, postings: seq<Posting>, i: nat): int {
    if postings == [] then 0
    else NetAll(chart, postings[..|postings| - 1], i) + Net(chart, postings[|postings| - 1], i)
  }

  /** Each balance is the opening balance and the sum of what was posted to the account. */
  lemma {:induction false} BalancesAreSums(chart: seq<Line>, postings: seq<Posting>, i: nat)
    requires i < |chart|
    ensures PostedAll(chart, postings)[i] == Booked(chart[i], DEBIT, NetAll(chart, postings, i))
    ensures forall number :: Find(PostedAll(chart, postings), number) == Find(chart, number)
    decreases |postings|
  {
    if postings != [] {
      var front, p := PostedAll(chart, postings[..|postings| - 1]), postings[|postings| - 1];
      BalancesAreSums(chart, postings[..|postings| - 1], i);
      PostedAt(front, p, i);
      forall number ensures Find(Posted(front, p), number) == Find(chart, number) {
        PostingKeepsFind(front, p, number);
      }
    }
  }
}
