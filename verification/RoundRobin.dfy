/** Dealing selected leads to salespeople one by one, and counting who got how many. */
module RoundRobin {
  import opened Text

  datatype Planned = Planned(lead: string, person: string)

  function Plan(leads: seq<string>, people: seq<string>): (r: seq<Planned>)
    ensures |r| == if people == [] then 0 else |leads|
    ensures forall i :: 0 <= i < |r| ==> r[i] == Planned(leads[i], people[i % |people|])
  {
    if people == [] then [] else seq(|leads|, i requires 0 <= i < |leads| => Planned(leads[i], people[i % |people|]))
  }

  /** How many leads each of `k` people gets from `n` leads. */
  function Counts(n: nat, k: int): (r: seq<nat>)
    ensures |r| == if k <= 0 then 0 else k
    ensures forall i :: 0 <= i < |r| ==> r[i] == n / k + if i < n % k then 1 else 0
  {
    if k <= 0 then [] else seq(k, i requires 0 <= i < k => n / k + if i < n % k then 1 else 0)
  }

  function CountOf(plan: seq<Planned>, person: string): nat {
    if plan == [] then 0 else
    CountOf(plan[..|plan| - 1], person) + if plan[|plan| - 1].person == person then 1 else 0
  }

  // ---------- division ----------

  lemma QuotientIsUnique(n: int, k: int, q: int, r: int)
    requires k > 0 && n == k * q + r && 0 <= r < k
    ensures n / k == q && n % k == r
  {
    var d := n / k - q;
    assert k * d == r - n % k by { assert n == k * (n / k) + n % k; assert k * d == k * (n / k) - k * q; }
    assert d > 0 ==> k * d >= k;
    assert d < 0 ==> k * d <= -k;
  }

  /** Dealing one more lead moves on to the next person, or starts the next round. */
  lemma NextDeal(n: nat, k: int)
    requires k > 0
    ensures if n % k == k - 1 then (n + 1) / k == n / k + 1 && (n + 1) % k == 0
            else (n + 1) / k == n / k && (n + 1) % k == n % k + 1
  {
    var q, r := n / k, n % k;
    assert n == k * q + r;
    if r == k - 1 {
      assert n + 1 == k * (q + 1) + 0;
      QuotientIsUnique(n + 1, k, q + 1, 0);
    } else {
      QuotientIsUnique(n + 1, k, q, r + 1);
    }
  }

  // ---------- the dealt counts ----------

  /** Counting the plan gives every person exactly the closed-form count for their place. */
  lemma {:induction false} DealtCounts(leads: seq<string>, people: seq<string>, j: nat)
    requires Distinct(people) && j < |people|
    ensures CountOf(Plan(leads, people), people[j]) == Counts(|leads|, |people|)[j]
  {
    var k := |people|;
    if leads == [] {
      QuotientIsUnique(0, k, 0, 0);
    } else {
      var n := |leads| - 1;
      var plan := Plan(leads, people);
      DealtCounts(leads[..n], people, j);
      NextDeal(n, k);
      assert plan[..n] == Plan(leads[..n], people);
      assert plan[n].person == people[n % k];
      assert people[n % k] == people[j] <==> n % k == j;
    }
  }

  function Sum(s: seq<nat>): nat { if s == [] then 0 else Sum(s[..|s| - 1]) + s[|s| - 1] }

  lemma OneMoreInSum(s: seq<nat>, j: nat)
    requires 0 < j <= |s|
    ensures Sum(s[..j]) == Sum(s[..j - 1]) + s[j - 1]
  {
    assert s[..j][..j - 1] == s[..j - 1];
  }

  lemma {:induction false} SumOfFirst(s: seq<nat>, q: nat, r: nat, j: nat)
    requires j <= |s| && forall i :: 0 <= i < |s| ==> s[i] == q + if i < r then 1 else 0
    ensures Sum(s[..j]) == j * q + if j < r then j else r
  {
    if j > 0 {
      SumOfFirst(s, q, r, j - 1);
      OneMoreInSum(s, j);
      OneMoreTimes(j, q);
    }
  }

  lemma OneMoreTimes(j: int, q: int)
    ensures j * q == (j - 1) * q + q
  {
  }

  /** The counts add up to the number of leads and differ by at most one, the larger ones first. */
  lemma CountsAreFair(n: nat, k: int)
    requires k > 0
    ensures Sum(Counts(n, k)) == n
    ensures forall i, j :: 0 <= i <= j < k ==> Counts(n, k)[j] <= Counts(n, k)[i] <= Counts(n, k)[j] + 1
  {
    SumOfFirst(Counts(n, k), n / k, n % k, k);
    assert Counts(n, k)[..k] == Counts(n, k);
    assert n == k * (n / k) + n % k;
  }

  // ---------- counting in place ----------

  datatype Row = Row(person: string, count: nat)

  /** Where a person's row is, or the number of rows. */
  function RowOf(rows: seq<Row>, person: string): (i: nat)
    ensures i <= |rows|
    ensures i < |rows| ==> rows[i].person == person
    ensures forall k :: 0 <= k < i ==> rows[k].person != person
  {
    if rows == [] then 0 else if rows[0].person == person then 0 else 1 + RowOf(rows[1..], person)
  }

  ghost predicate DistinctRows(rows: seq<Row>) { forall i, j :: 0 <= i < j < |rows| ==> rows[i].person != rows[j].person }

  /** Each person has at most one row, with their count, and everyone in the plan has one. */
  ghost predicate Tally(rows: seq<Row>, plan: seq<Planned>) {
    && DistinctRows(rows)
    && (forall i :: 0 <= i < |rows| ==> rows[i].count == CountOf(plan, rows[i].person))
    && (forall p :: CountOf(plan, p) > 0 ==> RowOf(rows, p) < |rows|)
  }

  /** The Map that gives each of the people a zero; a repeated person keeps one row. */
  function ZeroRows(people: seq<string>): (r: seq<Row>)
    ensures DistinctRows(r) && forall i :: 0 <= i < |r| ==> r[i].count == 0
  {
    if people == [] then [] else
    var init := ZeroRows(people[..|people| - 1]);
    if RowOf(init, people[|people| - 1]) < |init| then init else init + [Row(people[|people| - 1], 0)]
  }

  lemma {:induction false} ZeroRowsAreTheirs(people: seq<string>)
    requires Distinct(people)
    ensures |ZeroRows(people)| == |people| && forall i :: 0 <= i < |people| ==> ZeroRows(people)[i].person == people[i]
  {
    if people != [] {
      ZeroRowsAreTheirs(people[..|people| - 1]);
    }
  }

  /** The sum of the counts. */
  function Total(rows: seq<Row>): nat { if rows == [] then 0 else Total(rows[..|rows| - 1]) + rows[|rows| - 1].count }

  /** `counts.set(p, (counts.get(p) ?? 0) + 1)` */
  function Bump(rows: seq<Row>, p: string): seq<Row> {
    var at := RowOf(rows, p);
    if at < |rows| then rows[at := Row(p, rows[at].count + 1)] else rows + [Row(p, 1)]
  }

  lemma BumpKeepsTally(rows: seq<Row>, plan: seq<Planned>, lead: string, p: string)
    requires Tally(rows, plan)
    ensures Tally(Bump(rows, p), plan + [Planned(lead, p)])
  {
    var after, longer := Bump(rows, p), plan + [Planned(lead, p)];
    assert longer[..|longer| - 1] == plan;
    forall i | 0 <= i < |after|
      ensures after[i].count == CountOf(longer, after[i].person)
    {
      if i < |rows| { assert rows[i].count == CountOf(plan, rows[i].person); }
    }
    forall q | CountOf(longer, q) > 0
      ensures RowOf(after, q) < |after|
    {
      RowStays(rows, after, q);
      assert after[if RowOf(rows, p) < |rows| then RowOf(rows, p) else |rows|].person == p;
    }
  }

  lemma {:induction false} TotalOfUpdate(rows: seq<Row>, at: nat, row: Row)
    requires at < |rows| && row.count == rows[at].count + 1
    ensures Total(rows[at := row]) == Total(rows) + 1
  {
    var n := |rows| - 1;
    if at == n {
      assert rows[at := row][..n] == rows[..n];
    } else {
      assert rows[at := row][..n] == rows[..n][at := row];
      TotalOfUpdate(rows[..n], at, row);
    }
  }

  lemma TotalOfBump(rows: seq<Row>, p: string)
    ensures Total(Bump(rows, p)) == Total(rows) + 1
  {
    var at := RowOf(rows, p);
    if at < |rows| {
      TotalOfUpdate(rows, at, Row(p, rows[at].count + 1));
    } else {
      assert (rows + [Row(p, 1)])[..|rows|] == rows;
    }
  }

  lemma {:induction false} TotalOfZeros(rows: seq<Row>)
    requires forall i :: 0 <= i < |rows| ==> rows[i].count == 0
    ensures Total(rows) == 0
  {
    if rows != [] { TotalOfZeros(rows[..|rows| - 1]); }
  }

  /** A bump adds a row only for somebody who has none. */
  lemma BumpKeepsRows(rows: seq<Row>, p: string)
    ensures var after := Bump(rows, p);
            && |rows| <= |after| && (|after| > |rows| <==> forall k :: 0 <= k < |rows| ==> rows[k].person != p)
            && forall k :: 0 <= k < |rows| ==> after[k].person == rows[k].person
  {
  }

  lemma NothingTallied(rows: seq<Row>)
    requires DistinctRows(rows) && forall i :: 0 <= i < |rows| ==> rows[i].count == 0
    ensures Tally(rows, [])
  {
  }

  lemma RowStays(before: seq<Row>, after: seq<Row>, p: string)
    requires |before| <= |after| && forall k :: 0 <= k < |before| ==> after[k].person == before[k].person
    ensures RowOf(before, p) < |before| ==> RowOf(after, p) < |after|
  {
    if RowOf(before, p) < |before| {
      assert after[RowOf(before, p)].person == p;
    }
  }

  /**
   * `countByPerson`: a Map filled with zeros for the chosen people and then counted up; a Map is its rows in insertion order.
   * Every person has one row with their count, the chosen people first and in their order.
   */
  method CountByPerson(plan: seq<Planned>, people: seq<string>) returns (rows: seq<Row>)
    ensures Tally(rows, plan) && Total(rows) == |plan|
    ensures Distinct(people) ==> |people| <= |rows| && forall i :: 0 <= i < |people| ==> rows[i].person == people[i]
    ensures Distinct(people) && (forall i :: 0 <= i < |plan| ==> plan[i].person in people) ==> |rows| == |people|
  {
    hide Tally;
    hide Bump;
    hide RowOf;
    rows := ZeroRows(people);
    NothingTallied(rows);
    TotalOfZeros(rows);
    hide Total;
    if Distinct(people) { ZeroRowsAreTheirs(people); }
    ghost var n := |rows|;
    for i := 0 to |plan|
      invariant n <= |rows| && (Distinct(people) ==> n == |people| && forall k :: 0 <= k < n ==> rows[k].person == people[k])
      invariant Tally(rows, plan[..i]) && Total(rows) == i
      invariant Distinct(people) && (forall k :: 0 <= k < |plan| ==> plan[k].person in people) ==> |rows| == n
    {
      BumpKeepsTally(rows, plan[..i], plan[i].lead, plan[i].person);
      BumpKeepsRows(rows, plan[i].person);
      TotalOfBump(rows, plan[i].person);
      assert plan[..i] + [Planned(plan[i].lead, plan[i].person)] == plan[..i + 1];
      rows := Bump(rows, plan[i].person);
    }
    assert plan[..|plan|] == plan;
  }
}
