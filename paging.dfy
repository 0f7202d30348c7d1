/**
  `view_raw_data`: the raw table shown five rows at a time for as long as
  the user answers "yes" and rows remain.
 */
module Paging {
  import opened Trips

  const PAGE_SIZE: nat := 5

  function MinNat(a: nat, b: nat): nat
  {
    if a <= b then a else b
  }

  /** The raw table cut into pages of PAGE_SIZE rows, the last one possibly shorter. */
  function Pages(rows: seq<Trip>): (pages: seq<seq<Trip>>)
    ensures forall i :: 0 <= i < |pages| ==> 0 < |pages[i]| <= PAGE_SIZE
    decreases |rows|
  {
    if rows == [] then []
    else
      var k := MinNat(PAGE_SIZE, |rows|);
      [rows[..k]] + Pages(rows[k..])
  }

  function Flatten(pages: seq<seq<Trip>>): seq<Trip>
  {
    if pages == [] then [] else pages[0] + Flatten(pages[1..])
  }

  /** The pages hold every row exactly once, in order. */
  lemma {:induction false} PagesCoverTable(rows: seq<Trip>)
    ensures Flatten(Pages(rows)) == rows
    decreases |rows|
  {
    if rows != [] {
      var k := MinNat(PAGE_SIZE, |rows|);
      PagesCoverTable(rows[k..]);
      assert Pages(rows)[1..] == Pages(rows[k..]);
      assert rows == rows[..k] + rows[k..];
    }
  }

  /** There are ceil(n / 5) pages. */
  lemma {:induction false} PageCount(rows: seq<Trip>)
    ensures |Pages(rows)| == (|rows| + PAGE_SIZE - 1) / PAGE_SIZE
    decreases |rows|
  {
    if rows != [] {
      PageCount(rows[MinNat(PAGE_SIZE, |rows|)..]);
    }
  }

  /** Page `i` starts at row 5i and holds min(5, n - 5i) rows. */
  lemma {:induction false} PageAt(rows: seq<Trip>, i: nat)
    requires i < |Pages(rows)|
    ensures PAGE_SIZE * i < |rows|
    ensures Pages(rows)[i] == rows[PAGE_SIZE * i .. MinNat(PAGE_SIZE * i + PAGE_SIZE, |rows|)]
    decreases |rows|
  {
    var k := MinNat(PAGE_SIZE, |rows|);
    if i > 0 {
      PageAt(rows[k..], i - 1);
      assert Pages(rows)[i] == Pages(rows[k..])[i - 1];
      assert k == PAGE_SIZE;
      var lo := PAGE_SIZE * (i - 1);
      var hi := MinNat(lo + PAGE_SIZE, |rows| - k);
      assert lo + k == PAGE_SIZE * i;
      assert hi + k == MinNat(PAGE_SIZE * i + PAGE_SIZE, |rows|);
      assert lo <= hi <= |rows[k..]|;
      forall j | 0 <= j < hi - lo ensures rows[k..][lo..hi][j] == rows[lo + k .. hi + k][j] {
      }
      assert rows[k..][lo..hi] == rows[lo + k .. hi + k];
    }
  }

  /** How many answers in a row, from the first, are "yes". */
  function LeadingYes(answers: seq<string>): (n: nat)
    ensures n <= |answers|
    ensures forall j :: 0 <= j < n ==> answers[j] == "yes"
    ensures n < |answers| ==> answers[n] != "yes"
  {
    if answers == [] || answers[0] != "yes" then 0
    else
      var n := LeadingYes(answers[1..]);
      assert forall j :: 1 <= j < |answers| ==> answers[j] == answers[1..][j - 1];
      1 + n
  }

  lemma {:induction false} LeadingYesIs(answers: seq<string>, i: nat)
    requires i <= |answers|
    requires forall j :: 0 <= j < i ==> answers[j] == "yes"
    requires i == |answers| || answers[i] != "yes"
    ensures LeadingYes(answers) == i
  {
    if i > 0 {
      LeadingYesIs(answers[1..], i - 1);
    }
  }

  /**
    The paging loop, the answers to "Would you like to see individual trip
    data?" given in advance (already lower-cased). It returns the pages shown:
    the first pages of the table, one per leading "yes", until the rows run out.
   */
  method ViewRawData(raw: seq<Trip>, answers: seq<string>) returns (shown: seq<seq<Trip>>)
    ensures shown == Pages(raw)[..MinNat(LeadingYes(answers), |Pages(raw)|)]
  {
    var curRowNumber: nat := 0;
    var numberOfRows := |raw|;
    var rowsToPrint: nat := PAGE_SIZE;
    var asked := 0;
    shown := [];
    PageCount(raw);
    while asked < |answers|
      invariant 0 <= asked <= |answers|
      invariant curRowNumber == PAGE_SIZE * asked
      invariant asked <= |Pages(raw)|
      invariant shown == Pages(raw)[..asked]
      invariant forall j :: 0 <= j < asked ==> answers[j] == "yes"
      invariant curRowNumber < numberOfRows ==> rowsToPrint == PAGE_SIZE
    {
      if answers[asked] != "yes" || curRowNumber >= numberOfRows {
        break;
      } else if numberOfRows - curRowNumber < PAGE_SIZE {
        rowsToPrint := numberOfRows - curRowNumber;
      }
      PageAt(raw, asked);
      shown := shown + [raw[curRowNumber .. MinNat(curRowNumber + rowsToPrint, numberOfRows)]];
      curRowNumber := curRowNumber + PAGE_SIZE;
      asked := asked + 1;
    }
    if asked < |answers| && answers[asked] == "yes" {
      assert asked == |Pages(raw)|;
    } else {
      LeadingYesIs(answers, asked);
    }
  }
}
