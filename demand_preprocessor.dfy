/**
 * Turns the per-stop demand of one school and its vehicle list into a solver
 * instance (real_world_implementation/3_run_optimization.py, lines 91-120):
 * stops whose demand exceeds the split limit are cut into consecutive parts,
 * and the fleet is repeated as extra trips until its seats cover the demand
 * or the round cap is reached.
 */
module DemandPreprocessor {
  import opened Common
  import opened Text

  /** The fixed upper bound on the split limit. */
  const SafetyCap: nat := 25
  /** The trip-round counter never goes past this value. */
  const MaxTripRounds: nat := 6

  /** One row of the model table: the depot (row 0) or an aggregated stop. */
  datatype StopRow = StopRow(
    stopId: int,
    name: string,
    location: Coord,
    studentCount: nat,
    staffCount: nat,
    demand: nat,
    studentIds: string,
    staffIds: string)

  datatype Vehicle = Vehicle(name: string, capacity: nat)

  /** The three integer columns that splitting spreads over the parts. */
  datatype Category = Demand | Students | Staff

  datatype SplitError = DivisionByZero

  function Count(row: StopRow, c: Category): nat
  {
    match c
    case Demand => row.demand
    case Students => row.studentCount
    case Staff => row.staffCount
  }

  /** Column sum, accumulated from the last row backwards. */
  function Total(rows: seq<StopRow>, c: Category): nat
  {
    if rows == [] then 0 else Total(rows[..|rows| - 1], c) + Count(rows[|rows| - 1], c)
  }

  lemma {:induction false} TotalAppend(a: seq<StopRow>, b: seq<StopRow>, c: Category)
    ensures Total(a + b, c) == Total(a, c) + Total(b, c)
    decreases |b|
  {
    if b != [] {
      assert (a + b)[..|a + b| - 1] == a + b[..|b| - 1];
      assert (a + b)[|a + b| - 1] == b[|b| - 1];
      assert Total(a + b, c) == Total(a + b[..|b| - 1], c) + Count(b[|b| - 1], c);
      TotalAppend(a, b[..|b| - 1], c);
    } else {
      assert a + b == a;
    }
  }

  // ---------------------------------------------------------------------
  // Split limit
  // ---------------------------------------------------------------------

  /** Python's min() over the fleet's capacities. */
  function MinCapacity(fleet: seq<Vehicle>): (c: nat)
    requires |fleet| > 0
    ensures exists k :: 0 <= k < |fleet| && fleet[k].capacity == c
    ensures forall k :: 0 <= k < |fleet| ==> c <= fleet[k].capacity
  {
    if |fleet| == 1 then fleet[0].capacity
    else
      var rest := MinCapacity(fleet[1..]);
      if fleet[0].capacity <= rest then fleet[0].capacity else rest
  }

  /** min(25, smallest capacity): the largest value that is at most 25 and at most every capacity. */
  function SplitLimit(fleet: seq<Vehicle>): (limit: nat)
    requires |fleet| > 0
    ensures limit <= SafetyCap
    ensures forall k :: 0 <= k < |fleet| ==> limit <= fleet[k].capacity
    ensures limit == SafetyCap || exists k :: 0 <= k < |fleet| && fleet[k].capacity == limit
  {
    var m := MinCapacity(fleet);
    if m < SafetyCap then m else SafetyCap
  }

  /** A vehicle without seats forces the split limit to zero. */
  lemma ZeroCapacityZeroLimit(fleet: seq<Vehicle>, k: nat)
    requires k < |fleet| && fleet[k].capacity == 0
    ensures SplitLimit(fleet) == 0
  {
  }

  // ---------------------------------------------------------------------
  // Splitting one row
  // ---------------------------------------------------------------------

  /** math.ceil(d / limit), computed on integers. */
  function NumParts(d: nat, limit: nat): (parts: nat)
    requires limit > 0
    ensures parts * limit >= d
    ensures parts == 0 || (parts - 1) * limit < d
  {
    (d + limit - 1) / limit
  }

  /** Part i's share of x: x // parts, plus one for the first x % parts parts. */
  function Share(x: nat, parts: nat, i: nat): nat
    requires parts > 0
  {
    x / parts + (if i < x % parts then 1 else 0)
  }

  /** The row copy for part i of a row cut into `parts` pieces. */
  function Part(row: StopRow, parts: nat, i: nat): StopRow
    requires parts > 0
  {
    row.(demand := Share(row.demand, parts, i),
         studentCount := Share(row.studentCount, parts, i),
         staffCount := Share(row.staffCount, parts, i),
         name := PartName(row.name, i),
         studentIds := if i > 0 then "" else row.studentIds,
         staffIds := if i > 0 then "" else row.staffIds)
  }

  function PartName(name: string, i: nat): string
  {
    name + " (Part " + NatToString(i + 1) + ")"
  }

  /** The parts of one row carry pairwise distinct names. */
  lemma PartNamesDistinct(name: string, i: nat, j: nat)
    ensures PartName(name, i) == PartName(name, j) <==> i == j
  {
    TaggedNumberInjective(name + " (Part ", i + 1, j + 1);
  }

  function SplitRow(row: StopRow, limit: nat): seq<StopRow>
    requires limit > 0
  {
    var n := NumParts(row.demand, limit);
    seq(n, i requires 0 <= i < n => Part(row, n, i))
  }

  /** The sum of the first k shares of x. */
  function SumShares(x: nat, parts: nat, k: nat): nat
    requires parts > 0
  {
    if k == 0 then 0 else SumShares(x, parts, k - 1) + Share(x, parts, k - 1)
  }

  lemma {:induction false} SumSharesClosed(x: nat, parts: nat, k: nat)
    requires parts > 0
    ensures SumShares(x, parts, k) == k * (x / parts) + (if k < x % parts then k else x % parts)
  {
    if k > 0 {
      SumSharesClosed(x, parts, k - 1);
      assert k * (x / parts) == (k - 1) * (x / parts) + x / parts;
    }
  }

  /** The shares of all parts add up to x exactly: no unit is lost or invented. */
  lemma SharesSumExactly(x: nat, parts: nat)
    requires parts > 0
    ensures SumShares(x, parts, parts) == x
  {
    SumSharesClosed(x, parts, parts);
  }

  /** Shares never grow along the parts, and any two differ by at most one. */
  lemma ShareOrder(x: nat, parts: nat, i: nat, j: nat)
    requires parts > 0 && i <= j
    ensures Share(x, parts, j) <= Share(x, parts, i) <= Share(x, parts, j) + 1
  {
  }

  lemma {:induction false} TotalOfParts(row: StopRow, limit: nat, c: Category, k: nat)
    requires limit > 0 && k <= NumParts(row.demand, limit)
    ensures NumParts(row.demand, limit) > 0 ==>
      Total(SplitRow(row, limit)[..k], c) == SumShares(Count(row, c), NumParts(row.demand, limit), k)
  {
    var n := NumParts(row.demand, limit);
    if n > 0 && k > 0 {
      var parts := SplitRow(row, limit);
      assert parts[..k][..k - 1] == parts[..k - 1];
      TotalOfParts(row, limit, c, k - 1);
    }
  }

  lemma MulMono(a: nat, b: nat, c: nat)
    requires a <= b
    ensures a * c <= b * c
  {
  }

  lemma MulCancel(n: nat, a: nat, b: nat)
    requires n > 0
    ensures n * a <= n * b ==> a <= b
    ensures n * a < n * b ==> a < b
  {
    if b < a { MulMono(b + 1, a, n); }
    if b <= a { MulMono(b, a, n); }
  }

  /** The quotient and remainder of x by n are determined by any decomposition x == n * q + r with 0 <= r < n. */
  lemma DivModUnique(x: nat, n: nat, q: nat, r: nat)
    requires n > 0 && r < n && x == n * q + r
    ensures x / n == q && x % n == r
  {
    var q', r' := x / n, x % n;
    assert n * q' + r' == n * q + r;
    MulCancel(n, q, q' + 1);
    MulCancel(n, q', q + 1);
    assert n * (q + 1) == n * q + n;
    assert n * (q' + 1) == n * q' + n;
  }

  lemma MulAdd(n: int, a: int, b: int)
    ensures n * (a + b) == n * a + n * b
  {
  }

  lemma DivMod(x: nat, n: nat)
    requires n > 0
    ensures x == n * (x / n) + x % n && 0 <= x % n < n
  {
  }

  lemma PartBoundCore(d: nat, limit: nat, n: nat, q: nat, r: nat)
    requires 0 < limit < d && n > 0 && r < n
    requires n * limit >= d && (n - 1) * limit < d
    requires d == n * q + r
    ensures n >= 2 && q >= 1
    ensures r == 0 ==> q <= limit
    ensures r > 0 ==> q < limit
  {
    MulCancel(limit, 1, n);
    assert limit * n == n * limit;
    MulMono(1, limit, n - 1);
    assert limit * (n - 1) == (n - 1) * limit;
    MulAdd(n, q, 1);
    MulCancel(n, 1, q + 1);
    MulCancel(n, q, limit);
  }

  /** Each part's demand is at most the limit, and at least one. */
  lemma PartDemandBounded(d: nat, limit: nat, i: nat)
    requires 0 < limit < d
    ensures NumParts(d, limit) >= 2
    ensures 1 <= Share(d, NumParts(d, limit), i) <= limit
  {
    var n := NumParts(d, limit);
    DivMod(d, n);
    PartBoundCore(d, limit, n, d / n, d % n);
  }

  /** The quotient and remainder of a sum of two numbers, given those of the numbers. */
  lemma SumDivModCore(s: nat, f: nat, n: nat, qs: nat, rs: nat, qf: nat, rf: nat)
    requires n > 0 && rs < n && rf < n
    requires s == n * qs + rs && f == n * qf + rf
    ensures rs + rf < n ==> (s + f) / n == qs + qf && (s + f) % n == rs + rf
    ensures rs + rf >= n ==> (s + f) / n == qs + qf + 1 && (s + f) % n == rs + rf - n
  {
    MulAdd(n, qs, qf);
    if rs + rf < n {
      DivModUnique(s + f, n, qs + qf, rs + rf);
    } else {
      MulAdd(n, qs + qf, 1);
      DivModUnique(s + f, n, qs + qf + 1, rs + rf - n);
    }
  }

  /** Splitting a row keeps each of its column values as the sum over its parts. */
  lemma SplitRowTotal(row: StopRow, limit: nat, c: Category)
    requires 0 < limit < row.demand
    ensures Total(SplitRow(row, limit), c) == Count(row, c)
  {
    var parts := SplitRow(row, limit);
    var n := |parts|;
    PartDemandBounded(row.demand, limit, 0);
    TotalOfParts(row, limit, c, n);
    assert parts[..n] == parts;
    SharesSumExactly(Count(row, c), n);
  }

  /**
   * A row with demand above the limit becomes ceil(demand / limit) parts:
   * each part has demand in 1..limit, every column sums to the original
   * value, earlier parts carry the larger shares, part i is named
   * "<name> (Part i+1)", and only the first part keeps the rider ids.
   */
  lemma SplitRowSpec(row: StopRow, limit: nat)
    requires 0 < limit < row.demand
    ensures var parts := SplitRow(row, limit);
      && |parts| == NumParts(row.demand, limit) >= 2
      && (forall i :: 0 <= i < |parts| ==> 1 <= parts[i].demand <= limit)
      && Total(parts, Demand) == row.demand
      && Total(parts, Students) == row.studentCount
      && Total(parts, Staff) == row.staffCount
      && (forall i, j, c :: 0 <= i <= j < |parts| ==>
            Count(parts[j], c) <= Count(parts[i], c) <= Count(parts[j], c) + 1)
      && (forall i :: 0 <= i < |parts| ==>
            && parts[i].name == PartName(row.name, i)
            && parts[i].stopId == row.stopId
            && parts[i].location == row.location
            && parts[i].studentIds == (if i == 0 then row.studentIds else "")
            && parts[i].staffIds == (if i == 0 then row.staffIds else ""))
  {
    var parts := SplitRow(row, limit);
    var n := |parts|;
    PartDemandBounded(row.demand, limit, 0);
    forall i | 0 <= i < n ensures 1 <= parts[i].demand <= limit {
      PartDemandBounded(row.demand, limit, i);
    }
    SplitRowTotal(row, limit, Demand);
    SplitRowTotal(row, limit, Students);
    SplitRowTotal(row, limit, Staff);
    forall i, j, c | 0 <= i <= j < n
      ensures Count(parts[j], c) <= Count(parts[i], c) <= Count(parts[j], c) + 1
    {
      ShareOrder(Count(row, c), n, i, j);
    }
  }

  /** Rounding two numbers separately moves their sum's share by at most one. */
  lemma ShareSumNear(s: nat, f: nat, n: nat, i: nat)
    requires n > 0
    ensures Share(s + f, n, i) - 1 <= Share(s, n, i) + Share(f, n, i) <= Share(s + f, n, i) + 1
  {
    DivMod(s, n);
    DivMod(f, n);
    SumDivModCore(s, f, n, s / n, s % n, f / n, f % n);
  }

  /**
   * Students and staff are rounded independently of the total, so a part's
   * student and staff counts can add up to one more, or one less, than its
   * demand, though never further apart.
   */
  lemma PartCategoriesNearDemand(row: StopRow, limit: nat, i: nat)
    requires 0 < limit < row.demand
    requires row.demand == row.studentCount + row.staffCount
    requires i < NumParts(row.demand, limit)
    ensures var p := SplitRow(row, limit)[i];
      p.demand - 1 <= p.studentCount + p.staffCount <= p.demand + 1
  {
    var n := NumParts(row.demand, limit);
    ShareSumNear(row.studentCount, row.staffCount, n, i);
  }

  /** The example split: 13 students and 13 staff at limit 25 give a first part of demand 13 carrying 14 riders. */
  lemma PartCategoriesExample()
    ensures var row := StopRow(1, "X", (25.3, 51.5), 13, 13, 26, "", "");
      var p := SplitRow(row, 25)[0];
      p.demand == 13 && p.studentCount == 7 && p.staffCount == 7
  {
  }

  // ---------------------------------------------------------------------
  // Splitting the whole table
  // ---------------------------------------------------------------------

  /** The limit is zero and some non-depot row has riders: math.ceil(d / 0) raises. */
  predicate DividesByZero(rows: seq<StopRow>, limit: nat)
  {
    limit == 0 && exists i :: 1 <= i < |rows| && rows[i].demand > 0
  }

  /** What one input row becomes: itself, or its parts. */
  function Expand(row: StopRow, isDepot: bool, limit: nat): seq<StopRow>
    requires !isDepot && row.demand > limit ==> limit > 0
  {
    if isDepot || row.demand <= limit then [row] else SplitRow(row, limit)
  }

  /** The rows of the split table, built row by row from the front. */
  function SplitAll(rows: seq<StopRow>, limit: nat): seq<StopRow>
    requires !DividesByZero(rows, limit)
  {
    if rows == [] then []
    else
      var init := rows[..|rows| - 1];
      assert forall i :: 0 <= i < |init| ==> init[i] == rows[i];
      SplitAll(init, limit) + Expand(rows[|rows| - 1], |rows| == 1, limit)
  }

  lemma DividesByZeroPrefix(rows: seq<StopRow>, limit: nat, k: nat)
    requires k <= |rows| && !DividesByZero(rows, limit)
    ensures !DividesByZero(rows[..k], limit)
  {
    assert forall i :: 0 <= i < k ==> rows[..k][i] == rows[i];
  }

  /** The split of a prefix of the rows is a prefix of the split of all rows. */
  lemma {:induction false} SplitAllPrefix(rows: seq<StopRow>, limit: nat, k: nat)
    requires k <= |rows| && !DividesByZero(rows, limit)
    ensures !DividesByZero(rows[..k], limit)
    ensures SplitAll(rows[..k], limit) <= SplitAll(rows, limit)
    decreases |rows| - k
  {
    DividesByZeroPrefix(rows, limit, k);
    if k < |rows| {
      var init := rows[..|rows| - 1];
      DividesByZeroPrefix(rows, limit, |rows| - 1);
      assert init[..k] == rows[..k];
      SplitAllPrefix(init, limit, k);
    } else {
      assert rows[..k] == rows;
    }
  }

  /** Where the output block of input row i starts. */
  function Offset(rows: seq<StopRow>, limit: nat, i: nat): nat
    requires i <= |rows| && !DividesByZero(rows, limit)
  {
    DividesByZeroPrefix(rows, limit, i);
    |SplitAll(rows[..i], limit)|
  }

  /**
   * Input row i becomes the consecutive block of output rows starting at
   * Offset(i), and the block of row i + 1 starts right after it: the rows
   * keep their relative order and nothing is interleaved.
   */
  lemma SplitAllBlocks(rows: seq<StopRow>, limit: nat, i: nat)
    requires i < |rows| && !DividesByZero(rows, limit)
    ensures !(i != 0 && rows[i].demand > limit && limit == 0)
    ensures var block := Expand(rows[i], i == 0, limit);
      && Offset(rows, limit, i) + |block| == Offset(rows, limit, i + 1) <= |SplitAll(rows, limit)|
      && SplitAll(rows, limit)[Offset(rows, limit, i) .. Offset(rows, limit, i + 1)] == block
  {
    assert i != 0 && rows[i].demand > limit ==> limit > 0;
    SplitAllPrefix(rows, limit, i + 1);
    DividesByZeroPrefix(rows, limit, i);
    var pre := rows[..i + 1];
    assert pre[..|pre| - 1] == rows[..i];
    assert pre[|pre| - 1] == rows[i];
    var whole := SplitAll(rows, limit);
    var upto := SplitAll(pre, limit);
    assert upto == SplitAll(rows[..i], limit) + Expand(rows[i], i == 0, limit);
    assert whole[..|upto|] == upto;
  }

  /** The depot row heads the split table unchanged. */
  lemma SplitAllKeepsDepot(rows: seq<StopRow>, limit: nat)
    requires |rows| > 0 && !DividesByZero(rows, limit)
    ensures |SplitAll(rows, limit)| > 0 && SplitAll(rows, limit)[0] == rows[0]
  {
    SplitAllBlocks(rows, limit, 0);
    assert rows[..0] == [];
  }

  /** What one row becomes has the row's own column values as totals. */
  lemma ExpandTotal(row: StopRow, isDepot: bool, limit: nat, c: Category)
    requires !isDepot && row.demand > limit ==> limit > 0
    ensures Total(Expand(row, isDepot, limit), c) == Count(row, c)
  {
    if isDepot || row.demand <= limit {
      assert [row][..0] == [];
    } else {
      SplitRowTotal(row, limit, c);
    }
  }

  /** Every column total of the split table equals that of the input table. */
  lemma {:induction false} SplitAllPreservesTotals(rows: seq<StopRow>, limit: nat, c: Category)
    requires !DividesByZero(rows, limit)
    ensures Total(SplitAll(rows, limit), c) == Total(rows, c)
    decreases |rows|
  {
    if rows != [] {
      var init := rows[..|rows| - 1];
      var last := rows[|rows| - 1];
      DividesByZeroPrefix(rows, limit, |rows| - 1);
      var head := SplitAll(init, limit);
      var block := Expand(last, |rows| == 1, limit);
      assert SplitAll(rows, limit) == head + block;
      SplitAllPreservesTotals(init, limit, c);
      TotalAppend(head, block, c);
      ExpandTotal(last, |rows| == 1, limit, c);
    }
  }

  /** After splitting, every row but the depot fits under the split limit. */
  lemma {:induction false} SplitAllBounded(rows: seq<StopRow>, limit: nat)
    requires !DividesByZero(rows, limit)
    ensures forall k :: 1 <= k < |SplitAll(rows, limit)| ==> SplitAll(rows, limit)[k].demand <= limit
    decreases |rows|
  {
    if rows != [] {
      var init := rows[..|rows| - 1];
      var last := rows[|rows| - 1];
      DividesByZeroPrefix(rows, limit, |rows| - 1);
      SplitAllBounded(init, limit);
      var head: seq<StopRow> := SplitAll(init, limit);
      var block: seq<StopRow> := Expand(last, |rows| == 1, limit);
      if |rows| == 1 {
        assert init == [];
      } else if last.demand > limit {
        SplitRowSpec(last, limit);
      }
      forall k | 1 <= k < |head + block| ensures (head + block)[k].demand <= limit {
        if k >= |head| {
          assert (head + block)[k] == block[k - |head|];
        }
      }
    }
  }

  /**
   * The splitting loop: row 0 is copied, every other row is copied or cut
   * into parts, and a zero split limit raises on the first non-depot row
   * with riders.
   */
  method SplitStops(rows: seq<StopRow>, fleet: seq<Vehicle>) returns (result: Result<seq<StopRow>, SplitError>)
    requires |fleet| > 0
    ensures result.Failure? <==> DividesByZero(rows, SplitLimit(fleet))
    ensures result.Success? ==> !DividesByZero(rows, SplitLimit(fleet)) &&
                                result.value == SplitAll(rows, SplitLimit(fleet))
  {
    result := SplitRows(rows, SplitLimit(fleet));
  }

  /** The loop of SplitStops for a given split limit. */
  method SplitRows(rows: seq<StopRow>, limit: nat) returns (result: Result<seq<StopRow>, SplitError>)
    ensures result.Failure? <==> DividesByZero(rows, limit)
    ensures result.Success? ==> !DividesByZero(rows, limit) && result.value == SplitAll(rows, limit)
  {
    var out: seq<StopRow> := [];
    var idx := 0;
    while idx < |rows|
      invariant 0 <= idx <= |rows|
      invariant !DividesByZero(rows[..idx], limit)
      invariant out == SplitAll(rows[..idx], limit)
    {
      var row := rows[idx];
      SplitAllStep(rows, limit, idx);
      if idx == 0 {
        out := out + [row];
      } else if row.demand > limit {
        if limit == 0 {
          DividesByZeroGrow(rows, limit, idx + 1);
          return Failure(DivisionByZero);
        }
        out := AppendParts(out, row, limit);
      } else {
        out := out + [row];
      }
      idx := idx + 1;
    }
    assert rows[..idx] == rows;
    return Success(out);
  }

  /** One more input row: the table fails only on that row, or grows by what the row becomes. */
  lemma SplitAllStep(rows: seq<StopRow>, limit: nat, idx: nat)
    requires idx < |rows| && !DividesByZero(rows[..idx], limit)
    ensures DividesByZero(rows[..idx + 1], limit) <==> idx >= 1 && limit == 0 && rows[idx].demand > 0
    ensures !DividesByZero(rows[..idx + 1], limit) ==>
      SplitAll(rows[..idx + 1], limit) == SplitAll(rows[..idx], limit) + Expand(rows[idx], idx == 0, limit)
  {
    var pre := rows[..idx + 1];
    assert pre[..|pre| - 1] == rows[..idx];
    assert pre[|pre| - 1] == rows[idx];
    assert forall j :: 0 <= j < idx ==> pre[j] == rows[..idx][j];
  }

  lemma DividesByZeroGrow(rows: seq<StopRow>, limit: nat, k: nat)
    requires k <= |rows| && DividesByZero(rows[..k], limit)
    ensures DividesByZero(rows, limit)
  {
    var i :| 1 <= i < k && rows[..k][i].demand > 0;
    assert rows[i] == rows[..k][i];
  }

  /** The inner loop: append the row's parts one by one. */
  method AppendParts(out: seq<StopRow>, row: StopRow, limit: nat) returns (r: seq<StopRow>)
    requires limit > 0
    ensures r == out + SplitRow(row, limit)
  {
    var numParts := NumParts(row.demand, limit);
    r := out;
    var i := 0;
    while i < numParts
      invariant 0 <= i <= numParts
      invariant r == out + SplitRow(row, limit)[..i]
    {
      r := r + [Part(row, numParts, i)];
      i := i + 1;
    }
    assert SplitRow(row, limit)[..numParts] == SplitRow(row, limit);
  }

  // ---------------------------------------------------------------------
  // Fleet extension
  // ---------------------------------------------------------------------

  function TotalCapacity(fleet: seq<Vehicle>): nat
  {
    if fleet == [] then 0 else TotalCapacity(fleet[..|fleet| - 1]) + fleet[|fleet| - 1].capacity
  }

  lemma {:induction false} TotalCapacityAppend(a: seq<Vehicle>, b: seq<Vehicle>)
    ensures TotalCapacity(a + b) == TotalCapacity(a) + TotalCapacity(b)
    decreases |b|
  {
    if b != [] {
      assert (a + b)[..|a + b| - 1] == a + b[..|b| - 1];
      assert (a + b)[|a + b| - 1] == b[|b| - 1];
      assert TotalCapacity(a + b) == TotalCapacity(a + b[..|b| - 1]) + b[|b| - 1].capacity;
      TotalCapacityAppend(a, b[..|b| - 1]);
    } else {
      assert a + b == a;
    }
  }

  /** The copy of vehicle v for trip round k: same seats, name tagged "(Trip k)". */
  function TripCopy(v: Vehicle, round: nat): Vehicle
  {
    Vehicle(v.name + " (Trip " + NatToString(round) + ")", v.capacity)
  }

  /** The copies of one vehicle for different rounds carry different names. */
  lemma TripNamesDistinct(v: Vehicle, j: nat, k: nat)
    ensures TripCopy(v, j).name == TripCopy(v, k).name <==> j == k
  {
    TaggedNumberInjective(v.name + " (Trip ", j, k);
  }

  function TripRound(fleet: seq<Vehicle>, round: nat): seq<Vehicle>
  {
    seq(|fleet|, i requires 0 <= i < |fleet| => TripCopy(fleet[i], round))
  }

  /** The original fleet followed by one tagged copy of it per extra round 2..mult. */
  function ExtendedFleet(fleet: seq<Vehicle>, mult: nat): seq<Vehicle>
  {
    if mult <= 1 then fleet else ExtendedFleet(fleet, mult - 1) + TripRound(fleet, mult)
  }

  lemma {:induction false} TripRoundCapacity(fleet: seq<Vehicle>, round: nat)
    ensures TotalCapacity(TripRound(fleet, round)) == TotalCapacity(fleet)
    decreases |fleet|
  {
    if fleet != [] {
      var init := fleet[..|fleet| - 1];
      assert TripRound(fleet, round)[..|fleet| - 1] == TripRound(init, round);
      TripRoundCapacity(init, round);
    }
  }

  /** After mult rounds the fleet has mult * |fleet| entries and mult times the seats, with the original vehicles in front. */
  lemma {:induction false} ExtendedFleetShape(fleet: seq<Vehicle>, mult: nat)
    requires mult >= 1
    ensures |ExtendedFleet(fleet, mult)| == mult * |fleet|
    ensures TotalCapacity(ExtendedFleet(fleet, mult)) == mult * TotalCapacity(fleet)
    ensures ExtendedFleet(fleet, mult)[..|fleet|] == fleet
  {
    if mult > 1 {
      ExtendedFleetShape(fleet, mult - 1);
      var prev := ExtendedFleet(fleet, mult - 1);
      var round := TripRound(fleet, mult);
      TotalCapacityAppend(prev, round);
      TripRoundCapacity(fleet, mult);
      MulMono(1, mult - 1, |fleet|);
      assert (prev + round)[..|fleet|] == prev[..|fleet|];
    } else {
      assert fleet[..|fleet|] == fleet;
    }
  }

  lemma {:induction false} ExtendedFleetLength(fleet: seq<Vehicle>, mult: nat)
    requires mult >= 1
    ensures |ExtendedFleet(fleet, mult)| == mult * |fleet|
  {
    if mult > 1 {
      ExtendedFleetLength(fleet, mult - 1);
      MulAdd(|fleet|, mult - 1, 1);
    }
  }

  /** Past the first k - 1 rounds, vehicle i's copy for round k sits at offset i. */
  lemma {:induction false} EntryAfterRounds(fleet: seq<Vehicle>, mult: nat, k: nat, i: nat)
    requires 2 <= k <= mult && i < |fleet|
    ensures |ExtendedFleet(fleet, k - 1)| + i < |ExtendedFleet(fleet, mult)|
    ensures ExtendedFleet(fleet, mult)[|ExtendedFleet(fleet, k - 1)| + i] == TripCopy(fleet[i], k)
    decreases mult
  {
    var prev := ExtendedFleet(fleet, mult - 1);
    var round := TripRound(fleet, mult);
    assert ExtendedFleet(fleet, mult) == prev + round;
    if k < mult {
      EntryAfterRounds(fleet, mult - 1, k, i);
    }
  }

  /** Entry (k - 1) * |fleet| + i of the extended fleet is vehicle i's copy for trip round k. */
  lemma ExtendedFleetEntry(fleet: seq<Vehicle>, mult: nat, k: nat, i: nat)
    requires 2 <= k <= mult && i < |fleet|
    ensures (k - 1) * |fleet| + i < |ExtendedFleet(fleet, mult)|
    ensures ExtendedFleet(fleet, mult)[(k - 1) * |fleet| + i] == TripCopy(fleet[i], k)
  {
    ExtendedFleetLength(fleet, k - 1);
    EntryAfterRounds(fleet, mult, k, i);
  }

  /**
   * Reference definition of the number of rounds: the least m in 1..6
   * with m * seats >= demand, or 6 when no such m exists.
   */
  function TripRounds(seats: nat, demand: nat): nat
  {
    if demand <= seats then 1
    else if seats == 0 then MaxTripRounds
    else var m := (demand + seats - 1) / seats; if m < MaxTripRounds then m else MaxTripRounds
  }

  /** TripRounds is the least sufficient round count, capped at 6. */
  lemma TripRoundsLeast(seats: nat, demand: nat)
    ensures 1 <= TripRounds(seats, demand) <= MaxTripRounds
    ensures TripRounds(seats, demand) * seats >= demand || TripRounds(seats, demand) == MaxTripRounds
    ensures forall m :: 1 <= m < TripRounds(seats, demand) ==> m * seats < demand
  {
    var r := TripRounds(seats, demand);
    if demand > seats && seats > 0 {
      var m := (demand + seats - 1) / seats;
      assert m * seats >= demand && (m - 1) * seats < demand by {
        assert demand + seats - 1 == m * seats + (demand + seats - 1) % seats;
      }
      forall k | 1 <= k < r ensures k * seats < demand {
        MulMono(k, m - 1, seats);
      }
    }
  }

  /** Every round count below mult left the riders short of seats. */
  predicate ShortBelow(seats: nat, demand: nat, mult: nat)
  {
    forall m :: 1 <= m < mult ==> m * seats < demand
  }

  lemma ShortStep(seats: nat, demand: nat, mult: nat)
    requires ShortBelow(seats, demand, mult) && mult * seats < demand
    ensures ShortBelow(seats, demand, mult + 1)
  {
  }

  /** The loop condition's two exits pin down the round count uniquely. */
  lemma TripRoundsUnique(seats: nat, demand: nat, mult: nat)
    requires 1 <= mult <= MaxTripRounds
    requires mult * seats >= demand || mult == MaxTripRounds
    requires ShortBelow(seats, demand, mult)
    ensures mult == TripRounds(seats, demand)
  {
    TripRoundsLeast(seats, demand);
    var r := TripRounds(seats, demand);
    assert mult < r ==> mult * seats < demand;
    assert r < mult ==> r * seats < demand;
  }

  /** The inner loop: append each original vehicle's copy for the given round. */
  method AppendTripRound(extended: seq<Vehicle>, fleet: seq<Vehicle>, round: nat) returns (r: seq<Vehicle>)
    ensures r == extended + TripRound(fleet, round)
  {
    r := extended;
    var i := 0;
    while i < |fleet|
      invariant 0 <= i <= |fleet|
      invariant r == extended + TripRound(fleet, round)[..i]
    {
      r := r + [TripCopy(fleet[i], round)];
      i := i + 1;
    }
    assert TripRound(fleet, round)[..|fleet|] == TripRound(fleet, round);
  }

  /**
   * The fleet-trip loop: while the seats fall short of the demand and fewer
   * than six rounds exist, append one tagged copy of the original fleet.
   */
  method ExtendFleet(fleet: seq<Vehicle>, totalPax: nat) returns (extended: seq<Vehicle>, mult: nat)
    ensures mult == TripRounds(TotalCapacity(fleet), totalPax)
    ensures extended == ExtendedFleet(fleet, mult)
    ensures |extended| == mult * |fleet| >= |fleet|
    ensures TotalCapacity(extended) >= totalPax || mult == MaxTripRounds
  {
    ghost var seats := TotalCapacity(fleet);
    extended := fleet;
    mult := 1;
    while TotalCapacity(extended) < totalPax && mult < MaxTripRounds
      invariant 1 <= mult <= MaxTripRounds
      invariant extended == ExtendedFleet(fleet, mult)
      invariant TotalCapacity(extended) == mult * seats
      invariant ShortBelow(seats, totalPax, mult)
    {
      ShortStep(seats, totalPax, mult);
      mult := mult + 1;
      extended := AppendTripRound(extended, fleet, mult);
      ExtendedFleetShape(fleet, mult);
    }
    ExtendFleetExit(fleet, totalPax, mult);
  }

  /** Where the loop of ExtendFleet stops: the round count, and the size of the fleet built by then. */
  lemma ExtendFleetExit(fleet: seq<Vehicle>, totalPax: nat, mult: nat)
    requires 1 <= mult <= MaxTripRounds
    requires mult * TotalCapacity(fleet) >= totalPax || mult == MaxTripRounds
    requires ShortBelow(TotalCapacity(fleet), totalPax, mult)
    ensures mult == TripRounds(TotalCapacity(fleet), totalPax)
    ensures |ExtendedFleet(fleet, mult)| == mult * |fleet| >= |fleet|
  {
    TripRoundsUnique(TotalCapacity(fleet), totalPax, mult);
    ExtendedFleetLength(fleet, mult);
    MulMono(1, mult, |fleet|);
  }

  /** One 20-seat vehicle and 50 riders: three entries, 60 seats. */
  lemma FleetScenario()
    ensures TripRounds(20, 50) == 3
    ensures |ExtendedFleet([Vehicle("V1", 20)], 3)| == 3
  {
    ExtendedFleetShape([Vehicle("V1", 20)], 3);
  }

  // ---------------------------------------------------------------------
  // The two steps together
  // ---------------------------------------------------------------------

  /**
   * Split the rows, sum the split demand, extend the fleet. Because
   * splitting keeps the demand total, the fleet is extended exactly as if
   * the unsplit demand had been summed.
   */
  method PrepareInstance(rows: seq<StopRow>, fleet: seq<Vehicle>)
    returns (result: Result<(seq<StopRow>, seq<Vehicle>), SplitError>)
    requires |fleet| > 0
    ensures result.Failure? <==> DividesByZero(rows, SplitLimit(fleet))
    ensures result.Success? ==>
      && !DividesByZero(rows, SplitLimit(fleet))
      && result.value.0 == SplitAll(rows, SplitLimit(fleet))
      && result.value.1 == ExtendedFleet(fleet, TripRounds(TotalCapacity(fleet), Total(rows, Demand)))
  {
    var split := SplitStops(rows, fleet);
    if split.Failure? {
      return Failure(split.error);
    }
    var totalPax := Total(split.value, Demand);
    SplitAllPreservesTotals(rows, SplitLimit(fleet), Demand);
    var extended, mult := ExtendFleet(fleet, totalPax);
    return Success((split.value, extended));
  }
}
