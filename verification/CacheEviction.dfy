/** CheckLimit of the disk cache as a function of the map: its scan, the run of evictions, and closed conditions, on the
    map and the limit before the call, for every way in which the run can end. */
module CacheEviction {
  import opened CacheRows

  // The scan

  /** The position that the scan of CheckLimit starts from: the first entry that may be evicted. */
  function FirstEligible(rows: seq<Row>): (e: nat)
    ensures e <= |rows|
    ensures e < |rows| ==> Free(rows, e)
    ensures forall j | 0 <= j < e :: !Free(rows, j)
  {
    if rows == [] then 0
    else if Eligible(rows[0].entry) then 0
    else
      var e := FirstEligible(rows[1..]);
      assert forall j | 0 < j < |rows| :: Free(rows, j) == Free(rows[1..], j - 1);
      1 + e
  }

  lemma {:induction false} FirstEligibleIs(rows: seq<Row>, e: nat)
    requires e <= |rows| && (e < |rows| ==> Free(rows, e)) && forall j | 0 <= j < e :: !Free(rows, j)
    ensures FirstEligible(rows) == e
  {
  }

  predicate Free(rows: seq<Row>, i: nat)
    requires i < |rows|
  {
    Eligible(rows[i].entry)
  }

  function Time(rows: seq<Row>, i: nat): int
    requires i < |rows|
  {
    rows[i].entry.lastModified
  }

  /** The second loop of the scan, from `it` on: an older entry replaces the candidate. */
  function OldestFrom(rows: seq<Row>, it: nat, oldest: nat): (k: nat)
    requires it <= |rows| && oldest < |rows|
    ensures k < |rows|
    decreases |rows| - it
  {
    if it == |rows| then oldest
    else OldestFrom(rows, it + 1, if Time(rows, it) < Time(rows, oldest) then it else oldest)
  }

  /** The result of the scan: nothing may be evicted; the scan reads past the end of the map, which is
      undefined in the source; or an entry was chosen. */
  datatype ScanResult = AllLocked | PastEnd | Chosen(index: nat)

  /** The candidate of the second loop is, at first, the entry behind the first eligible one. */
  function Scan(rows: seq<Row>): (r: ScanResult)
    ensures r.Chosen? ==> r.index < |rows|
  {
    var e := FirstEligible(rows);
    if e == |rows| then AllLocked
    else if e + 1 == |rows| then PastEnd
    else Chosen(OldestFrom(rows, e, e + 1))
  }

  /** The oldest entry from the e-th on, whether it is eligible or not. The second of these
      is the first candidate, so a tie between the first two goes to the second. */
  ghost predicate IsOldest(rows: seq<Row>, e: nat, k: nat) {
    && e + 1 < |rows| && e <= k < |rows|
    && (forall j | e <= j < |rows| :: Time(rows, k) <= Time(rows, j))
    && (forall j | e < j < k :: Time(rows, k) < Time(rows, j))
    && (k == e ==> Time(rows, e) < Time(rows, e + 1))
    && (k > e + 1 ==> Time(rows, k) < Time(rows, e))
  }

  lemma {:induction false} OldestFromIsOldest(rows: seq<Row>, e: nat, it: nat, oldest: nat)
    requires e <= it <= |rows| && e <= oldest < |rows| && e + 1 < |rows|
    requires oldest == e + 1 || oldest < it
    requires it == e ==> oldest == e + 1
    requires forall j | e <= j < it :: Time(rows, oldest) <= Time(rows, j)
    requires forall j | e < j < oldest :: Time(rows, oldest) < Time(rows, j)
    requires oldest == e ==> Time(rows, e) < Time(rows, e + 1)
    requires oldest > e + 1 ==> Time(rows, oldest) < Time(rows, e)
    ensures IsOldest(rows, e, OldestFrom(rows, it, oldest))
    decreases |rows| - it
  {
    hide Time;
    if it < |rows| {
      OldestFromIsOldest(rows, e, it + 1, if Time(rows, it) < Time(rows, oldest) then it else oldest);
    }
  }

  /** What the scan chooses, in terms of the modification times. */
  lemma {:induction false} ChosenIsOldest(rows: seq<Row>, k: nat)
    ensures Scan(rows) == Chosen(k) <==> FirstEligible(rows) < |rows| && IsOldest(rows, FirstEligible(rows), k)
  {
    hide Time;
    var e := FirstEligible(rows);
    if e + 1 < |rows| {
      OldestFromIsOldest(rows, e, e, e + 1);
    }
  }

  /** No entry that may be evicted is older than the chosen one. */
  lemma {:induction false} ChosenIsLeastRecent(rows: seq<Row>, k: nat)
    requires Scan(rows) == Chosen(k)
    ensures forall j | 0 <= j < |rows| && Free(rows, j) :: Time(rows, k) <= Time(rows, j)
  {
    hide Time, Free, OldestFrom;
    ChosenIsOldest(rows, k);
  }

  /** The scan runs past the end exactly if the last entry of the map is the only one that may be evicted. */
  lemma {:induction false} PastEndIffOnlyLast(rows: seq<Row>)
    ensures Scan(rows) == PastEnd <==>
              |rows| > 0 && Free(rows, |rows| - 1) && forall j | 0 <= j < |rows| - 1 :: !Free(rows, j)
  {
  }

  /** The scan does not skip locked entries: here the entry "a" could be evicted, but the locked entry
      "b" is chosen, and deleting it is refused. */
  lemma {:induction false} ScanCanChooseLockedEntry()
    ensures var rows := [Row("a", Entry(Unlocked, 0, 10, 1, 5)), Row("b", Entry(Locked, 0, 10, 1, 3))];
            Free(rows, 0) && Scan(rows) == Chosen(1) && !Free(rows, 1)
  {
    var rows := [Row("a", Entry(Unlocked, 0, 10, 1, 5)), Row("b", Entry(Locked, 0, 10, 1, 3))];
    assert FirstEligible(rows) == 0;
    assert OldestFrom(rows, 0, 1) == OldestFrom(rows, 1, 1) == OldestFrom(rows, 2, 1);
  }

  /** No entry from the first eligible one on is older. */
  ghost predicate Minimal(rows: seq<Row>, i: nat)
    requires i < |rows|
  {
    forall j | FirstEligible(rows) <= j < |rows| :: Time(rows, i) <= Time(rows, j)
  }

  /** When the scan chooses an entry that may be evicted: ties included. */
  lemma {:induction false} ChosenIsEligibleIff(rows: seq<Row>, k: nat)
    requires Scan(rows) == Chosen(k)
    ensures var e := FirstEligible(rows);
            Free(rows, k) <==>
              (Minimal(rows, e) && !Minimal(rows, e + 1))
              || exists i: nat | e < i < |rows| ::
                   Minimal(rows, i) && Free(rows, i) && forall j | e < j < i :: !Minimal(rows, j)
  {
    var e := FirstEligible(rows);
    ChosenIsOldest(rows, k);
    hide Time, Free, OldestFrom;
    assert Minimal(rows, k);
    if k == e {
      assert !Minimal(rows, e + 1);
    } else {
      assert forall j | e < j < k :: !Minimal(rows, j);
      assert Minimal(rows, e) ==> Minimal(rows, e + 1);
    }
  }

  // The run

  /** What an operation reports; Undefined when the source would use a pointer or an iterator that is not valid.
      The model stops there. */
  datatype Outcome = Done(ok: bool) | Undefined

  /** What is left in the map, and what CheckLimit reports. */
  datatype Eviction = Eviction(rows: seq<Row>, out: Outcome)

  /** CheckLimit, if files can be deleted. */
  function Evict(rows: seq<Row>, limit: nat): Eviction
    decreases |rows|
  {
    if SumSizes(rows) <= limit then Eviction(rows, Done(true))
    else
      match Scan(rows)
      case AllLocked => Eviction(rows, Done(false))
      case PastEnd => Eviction(rows, Undefined)
      case Chosen(k) => if Free(rows, k) then Evict(Without(rows, k), limit) else Eviction(rows, Done(false))
  }

  // The order of the entries

  /** Some entry between the two may not be evicted. */
  ghost predicate Separated(rows: seq<Row>, h: nat, x: nat)
    requires x <= |rows|
  {
    exists q: nat | h < q < x :: !Free(rows, q)
  }

  /** Every evictable entry in front of the x-th is older, or as old and separated from it. */
  ghost predicate Leads(rows: seq<Row>, x: nat)
    requires x < |rows|
  {
    forall h: nat | h < x && Free(rows, h) ::
      Time(rows, h) < Time(rows, x) || (Time(rows, h) == Time(rows, x) && Separated(rows, h, x))
  }

  /** Every entry between the two may be evicted and is not newer than the first. */
  ghost predicate Adjoins(rows: seq<Row>, x: nat, y: nat)
    requires x < y < |rows|
  {
    forall r: nat | x < r < y :: Free(rows, r) && Time(rows, r) <= Time(rows, x)
  }

  /** Of two entries of the same age the first waits for the second: it is the first candidate of every scan that
      finds them, and the scan prefers the entry behind its first candidate. */
  ghost predicate Waits(rows: seq<Row>, x: nat, y: nat)
    requires x < y < |rows|
  {
    Free(rows, x) && Leads(rows, x) && Adjoins(rows, x, y)
  }

  /** The scans of a run come upon the x-th entry before the y-th. */
  ghost predicate Comes(rows: seq<Row>, x: nat, y: nat)
    requires x < |rows| && y < |rows| && x != y
  {
    Time(rows, x) < Time(rows, y)
    || (Time(rows, x) == Time(rows, y) && if x < y then !Waits(rows, x, y) else Waits(rows, y, x))
  }

  lemma {:induction false} ComesIsOneWay(rows: seq<Row>, x: nat, y: nat)
    requires x < |rows| && y < |rows| && x != y
    ensures Comes(rows, x, y) <==> !Comes(rows, y, x)
  {
    hide Waits, Time;
  }

  /** The chosen entry comes first of all that the scan looks at. */
  lemma {:induction false} ChosenComesFirst(rows: seq<Row>, k: nat, j: nat)
    requires Scan(rows) == Chosen(k) && FirstEligible(rows) <= j < |rows| && j != k
    ensures Comes(rows, k, j)
  {
    hide Time, Free, OldestFrom, Scan, FirstEligible;
    var e := FirstEligible(rows);
    ChosenIsOldest(rows, k);
    if j < k && Time(rows, k) == Time(rows, j) {
      assert Leads(rows, e) && Adjoins(rows, e, k);
    }
  }

  // Taking the chosen entry out does not change the order

  lemma {:induction false} WithoutAt(rows: seq<Row>, k: nat, i: nat)
    requires k < |rows| && i < |rows| - 1
    ensures var s := Without(rows, k);
            Free(s, i) == Free(rows, Before(i, k)) && Time(s, i) == Time(rows, Before(i, k))
  {
  }

  lemma {:induction false} SeparatedStays(rows: seq<Row>, k: nat, h: nat, x: nat)
    requires k < |rows| && Free(rows, k) && h < x < |rows| - 1
    ensures Separated(Without(rows, k), h, x) <==> Separated(rows, Before(h, k), Before(x, k))
  {
    hide Free, Time;
    var s := Without(rows, k);
    if Separated(s, h, x) {
      var q: nat :| h < q < x && !Free(s, q);
      WithoutAt(rows, k, q);
      assert Before(h, k) < Before(q, k) < Before(x, k);
    }
    if Separated(rows, Before(h, k), Before(x, k)) {
      var q: nat :| Before(h, k) < q < Before(x, k) && !Free(rows, q);
      WithoutAt(rows, k, After(q, k));
      assert h < After(q, k) < x;
    }
  }

  /** The chosen entry never alone keeps a later one from leading. */
  lemma {:induction false} ChosenDoesNotLead(rows: seq<Row>, k: nat, x: nat)
    requires Scan(rows) == Chosen(k) && Free(rows, k) && k < x < |rows| && Free(rows, x)
    requires !(Time(rows, k) < Time(rows, x) || (Time(rows, k) == Time(rows, x) && Separated(rows, k, x)))
    ensures exists h: nat | h < x && h != k && Free(rows, h) ::
              !(Time(rows, h) < Time(rows, x) || (Time(rows, h) == Time(rows, x) && Separated(rows, h, x)))
  {
    hide Time, Free, OldestFrom, Scan, FirstEligible;
    var e := FirstEligible(rows);
    ChosenIsOldest(rows, k);
    var h := if k == e then e + 1 else e;
    assert Free(rows, h);
  }

  lemma {:induction false} LeadsStays(rows: seq<Row>, k: nat, x: nat)
    requires Scan(rows) == Chosen(k) && Free(rows, k) && x < |rows| - 1 && Free(Without(rows, k), x)
    ensures Leads(Without(rows, k), x) <==> Leads(rows, Before(x, k))
  {
    hide Time, Free, OldestFrom, Scan, FirstEligible, Separated;
    var s, y := Without(rows, k), Before(x, k);
    WithoutAt(rows, k, x);
    if Leads(rows, y) {
      forall h: nat | h < x && Free(s, h)
        ensures Time(s, h) < Time(s, x) || (Time(s, h) == Time(s, x) && Separated(s, h, x))
      {
        WithoutAt(rows, k, h);
        SeparatedStays(rows, k, h, x);
      }
    }
    if Leads(s, x) && !Leads(rows, y) {
      var h: nat :| h < y && Free(rows, h)
                    && !(Time(rows, h) < Time(rows, y) || (Time(rows, h) == Time(rows, y) && Separated(rows, h, y)));
      if h == k {
        ChosenDoesNotLead(rows, k, y);
        h :| h < y && h != k && Free(rows, h)
             && !(Time(rows, h) < Time(rows, y) || (Time(rows, h) == Time(rows, y) && Separated(rows, h, y)));
      }
      WithoutAt(rows, k, After(h, k));
      SeparatedStays(rows, k, After(h, k), x);
      assert false;
    }
  }

  lemma {:induction false} AdjoinsStays(rows: seq<Row>, k: nat, x: nat, y: nat)
    requires Scan(rows) == Chosen(k) && Free(rows, k) && x < y < |rows| - 1 && Free(Without(rows, k), x)
    ensures Adjoins(Without(rows, k), x, y) <==> Adjoins(rows, Before(x, k), Before(y, k))
  {
    hide Time, Free, OldestFrom, Scan, FirstEligible;
    var s := Without(rows, k);
    ChosenIsLeastRecent(rows, k);
    WithoutAt(rows, k, x);
    if Adjoins(rows, Before(x, k), Before(y, k)) {
      forall r: nat | x < r < y ensures Free(s, r) && Time(s, r) <= Time(s, x) {
        WithoutAt(rows, k, r);
        assert Before(x, k) < Before(r, k) < Before(y, k);
      }
    }
    if Adjoins(s, x, y) {
      forall r: nat | Before(x, k) < r < Before(y, k)
        ensures Free(rows, r) && Time(rows, r) <= Time(rows, Before(x, k))
      {
        if r != k {
          WithoutAt(rows, k, After(r, k));
          assert x < After(r, k) < y;
        }
      }
    }
  }

  lemma {:induction false} ComesStays(rows: seq<Row>, k: nat, x: nat, y: nat)
    requires Scan(rows) == Chosen(k) && Free(rows, k) && x < |rows| - 1 && y < |rows| - 1 && x != y
    ensures Comes(Without(rows, k), x, y) <==> Comes(rows, Before(x, k), Before(y, k))
  {
    hide Time, Free, OldestFrom, Scan, FirstEligible, Leads, Adjoins;
    WithoutAt(rows, k, x);
    WithoutAt(rows, k, y);
    var a, b := if x < y then x else y, if x < y then y else x;
    if Free(Without(rows, k), a) {
      LeadsStays(rows, k, a);
      AdjoinsStays(rows, k, a, b);
    }
  }

  // How a run ends

  /** A locked or open entry that the scans come upon while the h-th, in front of it, is still there. */
  ghost predicate Blocks(rows: seq<Row>, q: nat, h: nat)
    requires q < |rows| && h < |rows|
  {
    h < q && Free(rows, h) && !Free(rows, q) && Comes(rows, q, h)
  }

  /** No entry stops the run before it comes to the i-th. */
  ghost predicate Reached(rows: seq<Row>, i: nat)
    requires i < |rows|
  {
    forall q: nat, h: nat | q < |rows| && h < |rows| && q != i && Blocks(rows, q, h) :: !Comes(rows, q, i)
  }

  /** The evictable entry on which the scan runs past the end, if the limit lets the run come so far: the last of all
      evictable ones, with nothing that may not be evicted behind it, and nothing that stops the run. */
  ghost predicate IsFinal(rows: seq<Row>, n: nat)
    requires n < |rows|
  {
    && Free(rows, n)
    && (forall j: nat | n < j < |rows| :: Free(rows, j))
    && (forall j: nat | j < |rows| && j != n && Free(rows, j) :: Comes(rows, j, n))
    && (forall q: nat, h: nat | q < |rows| && h < |rows| :: !Blocks(rows, q, h))
  }

  ghost predicate HasFinal(rows: seq<Row>) {
    exists n: nat | n < |rows| :: IsFinal(rows, n)
  }

  /** Without a limit the run evicts exactly these. */
  ghost predicate Removable(rows: seq<Row>, i: nat)
    requires i < |rows|
  {
    Free(rows, i) && Reached(rows, i) && !IsFinal(rows, i)
  }

  /** What is still in the map when the run comes to the i-th entry. */
  ghost predicate Stays(rows: seq<Row>, i: nat, j: nat)
    requires i < |rows| && j < |rows|
  {
    j == i || !Free(rows, j) || Comes(rows, i, j)
  }

  function Selected(rows: seq<Row>, keep: seq<bool>): nat
    requires |keep| == |rows|
  {
    if rows == [] then 0 else (if keep[0] then rows[0].entry.size else 0) + Selected(rows[1..], keep[1..])
  }

  ghost function StaysAt(rows: seq<Row>, i: nat): (keep: seq<bool>)
    requires i < |rows|
    ensures |keep| == |rows| && forall j | 0 <= j < |rows| :: keep[j] == Stays(rows, i, j)
  {
    seq(|rows|, j requires 0 <= j < |rows| => Stays(rows, i, j))
  }

  ghost function NotRemovable(rows: seq<Row>): (keep: seq<bool>)
    ensures |keep| == |rows| && forall j | 0 <= j < |rows| :: keep[j] == !Removable(rows, j)
  {
    seq(|rows|, j requires 0 <= j < |rows| => !Removable(rows, j))
  }

  /** The total when the run comes to the i-th entry, and the smallest total that eviction can reach. */
  ghost function TotalAt(rows: seq<Row>, i: nat): nat
    requires i < |rows|
  {
    Selected(rows, StaysAt(rows, i))
  }

  ghost function Floor(rows: seq<Row>): nat {
    Selected(rows, NotRemovable(rows))
  }

  lemma {:induction false} BlocksStays(rows: seq<Row>, k: nat, q: nat, h: nat)
    requires Scan(rows) == Chosen(k) && Free(rows, k) && q < |rows| - 1 && h < |rows| - 1
    ensures Blocks(Without(rows, k), q, h) <==> Blocks(rows, Before(q, k), Before(h, k))
  {
    hide Time, Free, Scan, Comes;
    WithoutAt(rows, k, q);
    WithoutAt(rows, k, h);
    if q != h {
      ComesStays(rows, k, q, h);
    }
  }

  /** The chosen entry, if it may be evicted, is blocked by nothing and blocks nothing. */
  lemma {:induction false} ChosenIsNotBlocked(rows: seq<Row>, k: nat, q: nat)
    requires Scan(rows) == Chosen(k) && Free(rows, k) && q < |rows|
    ensures !Blocks(rows, q, k) && !Blocks(rows, k, q)
  {
    hide Time, Scan, Comes, Free;
    if k < q {
      assert FirstEligible(rows) <= k;
      ChosenComesFirst(rows, k, q);
      ComesIsOneWay(rows, k, q);
    }
  }

  lemma {:induction false} ReachedStays(rows: seq<Row>, k: nat, i: nat)
    requires Scan(rows) == Chosen(k) && Free(rows, k) && i < |rows| - 1
    ensures Reached(Without(rows, k), i) <==> Reached(rows, Before(i, k))
  {
    hide Time, Free, Scan, Comes, Blocks;
    var s, j := Without(rows, k), Before(i, k);
    if Reached(rows, j) {
      forall q: nat, h: nat | q < |s| && h < |s| && q != i && Blocks(s, q, h) ensures !Comes(s, q, i) {
        BlocksStays(rows, k, q, h);
        ComesStays(rows, k, q, i);
      }
    }
    if Reached(s, i) {
      forall q: nat, h: nat | q < |rows| && h < |rows| && q != j && Blocks(rows, q, h) ensures !Comes(rows, q, j) {
        ChosenIsNotBlocked(rows, k, q);
        ChosenIsNotBlocked(rows, k, h);
        BlocksStays(rows, k, After(q, k), After(h, k));
        ComesStays(rows, k, After(q, k), i);
      }
    }
  }

  lemma {:induction false} NoBlocksStays(rows: seq<Row>, k: nat)
    requires Scan(rows) == Chosen(k) && Free(rows, k)
    ensures (forall q: nat, h: nat | q < |rows| - 1 && h < |rows| - 1 :: !Blocks(Without(rows, k), q, h))
       <==> (forall q: nat, h: nat | q < |rows| && h < |rows| :: !Blocks(rows, q, h))
  {
    hide Time, Free, Scan, Comes, Blocks;
    var s := Without(rows, k);
    if exists q: nat, h: nat | q < |rows| && h < |rows| :: Blocks(rows, q, h) {
      var q: nat, h: nat :| q < |rows| && h < |rows| && Blocks(rows, q, h);
      ChosenIsNotBlocked(rows, k, q);
      ChosenIsNotBlocked(rows, k, h);
      BlocksStays(rows, k, After(q, k), After(h, k));
    }
    if exists q: nat, h: nat | q < |s| && h < |s| :: Blocks(s, q, h) {
      var q: nat, h: nat :| q < |s| && h < |s| && Blocks(s, q, h);
      BlocksStays(rows, k, q, h);
    }
  }

  lemma {:induction false} FinalStays(rows: seq<Row>, k: nat, n: nat)
    requires Scan(rows) == Chosen(k) && Free(rows, k) && n < |rows| - 1
    ensures IsFinal(Without(rows, k), n) <==> IsFinal(rows, Before(n, k))
  {
    hide Time, Free, Scan, Comes, Blocks;
    var s, m := Without(rows, k), Before(n, k);
    NoBlocksStays(rows, k);
    WithoutAt(rows, k, n);
    if IsFinal(rows, m) {
      forall j: nat | j < |s| && j != n ensures Free(s, j) ==> Comes(s, j, n) {
        WithoutAt(rows, k, j);
        ComesStays(rows, k, j, n);
      }
      forall j: nat | n < j < |s| ensures Free(s, j) {
        WithoutAt(rows, k, j);
      }
    }
    if IsFinal(s, n) {
      forall j: nat | j < |rows| && j != m && Free(rows, j) ensures Comes(rows, j, m) {
        if j == k {
          assert FirstEligible(rows) <= m;
          ChosenComesFirst(rows, k, m);
        } else {
          WithoutAt(rows, k, After(j, k));
          ComesStays(rows, k, After(j, k), n);
        }
      }
      forall j: nat | m < j < |rows| ensures Free(rows, j) {
        if j != k {
          WithoutAt(rows, k, After(j, k));
        }
      }
    }
  }

  lemma {:induction false} RemovableStays(rows: seq<Row>, k: nat, i: nat)
    requires Scan(rows) == Chosen(k) && Free(rows, k) && i < |rows| - 1
    ensures Removable(Without(rows, k), i) <==> Removable(rows, Before(i, k))
  {
    hide Time, Free, Scan, Reached, IsFinal;
    WithoutAt(rows, k, i);
    ReachedStays(rows, k, i);
    FinalStays(rows, k, i);
  }

  /** The chosen entry is removable: it is not the final one, for the scan sees one behind its first candidate. */
  lemma {:induction false} ChosenIsRemovable(rows: seq<Row>, k: nat)
    requires Scan(rows) == Chosen(k) && Free(rows, k)
    ensures Removable(rows, k)
  {
    hide Time, Scan, Comes, Blocks, Free;
    var e := FirstEligible(rows);
    ChosenIsOldest(rows, k);
    forall q: nat, h: nat | q < |rows| && h < |rows| && q != k && Blocks(rows, q, h) ensures !Comes(rows, q, k) {
      assert e <= h < q by { BlockedIsFree(rows, q, h); }
      ChosenComesFirst(rows, k, q);
      ComesIsOneWay(rows, k, q);
    }
    var j := if k == e then e + 1 else e;
    ChosenComesFirst(rows, k, j);
    ComesIsOneWay(rows, k, j);
  }

  lemma {:induction false} BlockedIsFree(rows: seq<Row>, q: nat, h: nat)
    requires q < |rows| && h < |rows| && Blocks(rows, q, h)
    ensures h < q && Free(rows, h) && !Free(rows, q) && FirstEligible(rows) <= h
  {
    hide Comes, Free;
  }

  /** A chosen entry that may not be evicted stops the run: nothing is reached, and there is no final entry. */
  lemma {:induction false} ChosenStops(rows: seq<Row>, k: nat, i: nat)
    requires Scan(rows) == Chosen(k) && !Free(rows, k) && i < |rows|
    ensures !Removable(rows, i) && !IsFinal(rows, i)
  {
    hide Time, Scan, Comes, Free;
    var e := FirstEligible(rows);
    ChosenIsOldest(rows, k);
    ChosenComesFirst(rows, k, e);
    assert Blocks(rows, k, e);
    if Free(rows, i) {
      ChosenComesFirst(rows, k, i);
    }
  }

  // Sums over some of the entries

  lemma {:induction false} SelectedConcat(a: seq<Row>, b: seq<Row>, s: seq<bool>, t: seq<bool>)
    requires |a| == |s| && |b| == |t|
    ensures Selected(a + b, s + t) == Selected(a, s) + Selected(b, t)
  {
    if a == [] {
      assert a + b == b && s + t == t;
    } else {
      assert (a + b)[1..] == a[1..] + b && (s + t)[1..] == s[1..] + t;
      SelectedConcat(a[1..], b, s[1..], t);
    }
  }

  lemma {:induction false} SelectedWithout(rows: seq<Row>, keep: seq<bool>, k: nat)
    requires |keep| == |rows| && k < |rows|
    ensures Selected(rows, keep)
            == Selected(Without(rows, k), Without(keep, k)) + if keep[k] then rows[k].entry.size else 0
  {
    assert rows == rows[..k] + ([rows[k]] + rows[k + 1..]) && keep == keep[..k] + ([keep[k]] + keep[k + 1..]);
    SelectedConcat(rows[..k], [rows[k]] + rows[k + 1..], keep[..k], [keep[k]] + keep[k + 1..]);
    SelectedConcat([rows[k]], rows[k + 1..], [keep[k]], keep[k + 1..]);
    SelectedConcat(rows[..k], rows[k + 1..], keep[..k], keep[k + 1..]);
    assert [rows[k]][1..] == [] && [keep[k]][1..] == [];
  }

  lemma {:induction false} SelectedAtMost(rows: seq<Row>, keep: seq<bool>)
    requires |keep| == |rows|
    ensures Selected(rows, keep) <= SumSizes(rows)
    ensures (forall i | 0 <= i < |keep| :: keep[i]) ==> Selected(rows, keep) == SumSizes(rows)
  {
    if rows != [] {
      SelectedAtMost(rows[1..], keep[1..]);
    }
  }

  lemma {:induction false} SelectedAt(rows: seq<Row>, keep: seq<bool>, n: nat)
    requires |keep| == |rows| && n < |rows| && keep[n]
    ensures rows[n].entry.size <= Selected(rows, keep)
  {
    SelectedWithout(rows, keep, n);
  }

  // How a run ends, from the map before it

  lemma {:induction false} FloorStays(rows: seq<Row>, k: nat)
    requires Scan(rows) == Chosen(k) && Free(rows, k)
    ensures Floor(Without(rows, k)) == Floor(rows)
  {
    hide Scan, Free, Removable, Selected;
    var s, keep := Without(rows, k), NotRemovable(rows);
    ChosenIsRemovable(rows, k);
    forall i | 0 <= i < |s| ensures NotRemovable(s)[i] == Without(keep, k)[i] {
      RemovableStays(rows, k, i);
    }
    assert NotRemovable(s) == Without(keep, k);
    SelectedWithout(rows, keep, k);
  }

  lemma {:induction false} HasFinalStays(rows: seq<Row>, k: nat)
    requires Scan(rows) == Chosen(k) && Free(rows, k)
    ensures HasFinal(Without(rows, k)) <==> HasFinal(rows)
  {
    hide Scan, Free, IsFinal, Reached;
    var s := Without(rows, k);
    ChosenIsRemovable(rows, k);
    if HasFinal(s) {
      var n: nat :| n < |s| && IsFinal(s, n);
      FinalStays(rows, k, n);
    }
    if HasFinal(rows) {
      var n: nat :| n < |rows| && IsFinal(rows, n);
      FinalStays(rows, k, After(n, k));
    }
  }

  /** Where the run stops at once nothing can be removed. */
  lemma {:induction false} NothingRemovable(rows: seq<Row>)
    requires !Scan(rows).Chosen? || !Free(rows, Scan(rows).index)
    ensures forall i: nat | i < |rows| :: !Removable(rows, i)
    ensures HasFinal(rows) <==> Scan(rows) == PastEnd
  {
    hide Time, Comes, Free, OldestFrom;
    match Scan(rows) {
      case Chosen(k) =>
        forall i: nat | i < |rows| ensures !Removable(rows, i) && !IsFinal(rows, i) {
          ChosenStops(rows, k, i);
        }
      case PastEnd =>
        assert IsFinal(rows, |rows| - 1);
      case AllLocked =>
    }
  }

  lemma {:induction false} FloorAtMost(rows: seq<Row>)
    ensures Floor(rows) <= SumSizes(rows)
    ensures (forall i: nat | i < |rows| :: !Removable(rows, i)) ==> Floor(rows) == SumSizes(rows)
  {
    hide Removable, Selected, SumSizes;
    SelectedAtMost(rows, NotRemovable(rows));
  }

  /** How CheckLimit ends is known before it starts. It meets the limit exactly if the smallest total that eviction can
      reach meets it; if not, it reads past the end of the map exactly if there is a final entry. */
  lemma {:induction false} RunEnds(rows: seq<Row>, limit: nat)
    ensures Evict(rows, limit).out ==
              if Floor(rows) <= limit then Done(true) else if HasFinal(rows) then Undefined else Done(false)
    decreases |rows|
  {
    hide Scan, Free, Floor, HasFinal, Removable, SumSizes;
    FloorAtMost(rows);
    if SumSizes(rows) > limit {
      if Scan(rows).Chosen? && Free(rows, Scan(rows).index) {
        var k := Scan(rows).index;
        FloorStays(rows, k);
        HasFinalStays(rows, k);
        RunEnds(Without(rows, k), limit);
      } else {
        NothingRemovable(rows);
      }
    }
  }

  lemma {:induction false} TotalAtStays(rows: seq<Row>, k: nat, i: nat)
    requires Scan(rows) == Chosen(k) && Free(rows, k) && i < |rows| - 1 && Free(Without(rows, k), i)
    ensures TotalAt(Without(rows, k), i) == TotalAt(rows, Before(i, k))
  {
    hide Scan, Free, Selected, Comes;
    var s, m := Without(rows, k), Before(i, k);
    var keep := StaysAt(rows, m);
    WithoutAt(rows, k, i);
    assert FirstEligible(rows) <= m;
    ChosenComesFirst(rows, k, m);
    ComesIsOneWay(rows, k, m);
    forall j | 0 <= j < |s| ensures StaysAt(s, i)[j] == Without(keep, k)[j] {
      WithoutAt(rows, k, j);
      if j != i {
        ComesStays(rows, k, i, j);
      }
    }
    assert StaysAt(s, i) == Without(keep, k);
    SelectedWithout(rows, keep, k);
  }

  /** The run has come to the chosen entry. */
  lemma {:induction false} TotalAtChosen(rows: seq<Row>, k: nat)
    requires Scan(rows) == Chosen(k)
    ensures TotalAt(rows, k) == SumSizes(rows)
  {
    hide Scan, Free, Selected, Comes, SumSizes;
    forall j: nat | j < |rows| ensures Stays(rows, k, j) {
      if j != k && Free(rows, j) {
        assert FirstEligible(rows) <= j;
        ChosenComesFirst(rows, k, j);
      }
    }
    SelectedAtMost(rows, StaysAt(rows, k));
  }

  /** The run evicts an entry exactly if the entry is removable and the total is over the limit when the run comes
      to it. */
  lemma {:induction false} EvictedIff(rows: seq<Row>, limit: nat, i: nat)
    requires Distinct(rows) && i < |rows|
    ensures Find(Evict(rows, limit).rows, rows[i].id) == |Evict(rows, limit).rows|
       <==> Removable(rows, i) && TotalAt(rows, i) > limit
    decreases |rows|
  {
    hide Scan, Free, Removable, SumSizes, TotalAt, Find, Distinct;
    FindIs(rows, i);
    TotalAtMost(rows, i);
    if SumSizes(rows) > limit {
      if Scan(rows).Chosen? && Free(rows, Scan(rows).index) {
        var k := Scan(rows).index;
        var s := Without(rows, k);
        WithoutDistinct(rows, k);
        if i == k {
          EvictedStaysOut(s, limit, rows[k].id);
          ChosenIsRemovable(rows, k);
          TotalAtChosen(rows, k);
        } else {
          EvictedIff(s, limit, After(i, k));
          RemovableStays(rows, k, After(i, k));
          if Removable(rows, i) {
            RemovableIsFree(rows, i);
            WithoutAt(rows, k, After(i, k));
            TotalAtStays(rows, k, After(i, k));
          }
        }
      } else {
        NothingRemovable(rows);
      }
    }
  }

  lemma {:induction false} RemovableIsFree(rows: seq<Row>, i: nat)
    requires i < |rows| && Removable(rows, i)
    ensures Free(rows, i)
  {
  }

  lemma {:induction false} TotalAtMost(rows: seq<Row>, i: nat)
    requires i < |rows|
    ensures TotalAt(rows, i) <= SumSizes(rows)
  {
    SelectedAtMost(rows, StaysAt(rows, i));
  }

  lemma {:induction false} WithoutDistinct(rows: seq<Row>, k: nat)
    requires Distinct(rows) && k < |rows|
    ensures Distinct(Without(rows, k)) && Find(Without(rows, k), rows[k].id) == |rows| - 1
  {
    var s := Without(rows, k);
    forall i | 0 <= i < |s| ensures s[i].id != rows[k].id {
      assert s[i] == rows[Before(i, k)];
    }
  }

  /** What is not in the map does not come back. */
  lemma {:induction false} EvictedStaysOut(rows: seq<Row>, limit: nat, id: string)
    requires Find(rows, id) == |rows|
    ensures Find(Evict(rows, limit).rows, id) == |Evict(rows, limit).rows|
    decreases |rows|
  {
    hide Scan, SumSizes, Free;
    if SumSizes(rows) > limit && Scan(rows).Chosen? && Free(rows, Scan(rows).index) {
      var k := Scan(rows).index;
      var s := Without(rows, k);
      forall i | 0 <= i < |s| ensures s[i].id != id {
        assert s[i] == rows[Before(i, k)];
      }
      EvictedStaysOut(s, limit, id);
    }
  }

  // Special cases

  /** While the last entry of the map is locked or open the scan never runs past the end. */
  lemma {:induction false} HeldLastIsDefined(rows: seq<Row>, limit: nat)
    requires rows != [] && !Free(rows, |rows| - 1)
    ensures Evict(rows, limit).out != Undefined
  {
    hide Free, Floor, Comes;
    RunEnds(rows, limit);
  }

  /** The first of the newest entries. */
  ghost predicate IsNewest(rows: seq<Row>, n: nat) {
    n < |rows| && forall j: nat | j < |rows| ::
      Time(rows, j) <= Time(rows, n) && (j < n ==> Time(rows, j) < Time(rows, n))
  }

  ghost predicate NothingHeld(rows: seq<Row>) {
    forall i: nat | i < |rows| :: Free(rows, i)
  }

  lemma {:induction false} NewestIsFinal(rows: seq<Row>, n: nat)
    requires NothingHeld(rows) && IsNewest(rows, n)
    ensures IsFinal(rows, n)
    ensures forall i: nat | i < |rows| && i != n :: Removable(rows, i)
  {
    hide Free, Time;
    assert Leads(rows, n);
    forall j: nat | j < |rows| && j != n ensures Comes(rows, j, n) {
      if n < j { assert Adjoins(rows, n, j); }
    }
    forall i: nat | i < |rows| && i != n ensures Removable(rows, i) {
      ComesIsOneWay(rows, n, i);
      assert Reached(rows, i);
    }
  }

  lemma {:induction false} SelectedOnly(rows: seq<Row>, keep: seq<bool>, n: nat)
    requires |keep| == |rows| && n < |rows| && keep[n] && forall i | 0 <= i < |rows| && i != n :: !keep[i]
    ensures Selected(rows, keep) == rows[n].entry.size
  {
    SelectedWithout(rows, keep, n);
    SelectedNone(Without(rows, n), Without(keep, n));
  }

  lemma {:induction false} SelectedNone(rows: seq<Row>, keep: seq<bool>)
    requires |keep| == |rows| && forall i | 0 <= i < |keep| :: !keep[i]
    ensures Selected(rows, keep) == 0
  {
    if rows != [] {
      SelectedNone(rows[1..], keep[1..]);
    }
  }

  lemma {:induction false} FloorIsNewest(rows: seq<Row>, n: nat)
    requires NothingHeld(rows) && IsNewest(rows, n)
    ensures HasFinal(rows) && Floor(rows) == rows[n].entry.size
  {
    hide Free, Time, IsFinal, NothingHeld, Selected, Reached;
    NewestIsFinal(rows, n);
    SelectedOnly(rows, NotRemovable(rows), n);
  }

  /** With nothing locked or open CheckLimit runs past the end exactly if the newest entry alone is over the limit. */
  lemma {:induction false} NewestAloneIff(rows: seq<Row>, limit: nat, n: nat)
    requires NothingHeld(rows) && IsNewest(rows, n)
    ensures Evict(rows, limit).out == Undefined <==> rows[n].entry.size > limit
  {
    hide *;
    FloorIsNewest(rows, n);
    RunEnds(rows, limit);
  }

  // LockResource

  /** LockResource for the i-th entry goes wrong: CheckLimit reads past the end of the map, or meets the limit by
      evicting the entry to be locked. */
  ghost predicate LockFails(rows: seq<Row>, i: nat, limit: nat)
    requires i < |rows|
  {
    if Floor(rows) > limit then HasFinal(rows) else Removable(rows, i) && TotalAt(rows, i) > limit
  }

  lemma {:induction false} LockFailsIff(rows: seq<Row>, i: nat, limit: nat)
    requires Distinct(rows) && i < |rows|
    ensures var r := Evict(rows, limit);
            LockFails(rows, i, limit) <==>
              r.out == Undefined || (r.out == Done(true) && Find(r.rows, rows[i].id) == |r.rows|)
  {
    hide Evict, Floor, HasFinal, Removable, TotalAt, Find, Distinct;
    RunEnds(rows, limit);
    EvictedIff(rows, limit, i);
  }

  lemma {:induction false} WithinLimitStays(rows: seq<Row>, limit: nat)
    requires SumSizes(rows) <= limit
    ensures Evict(rows, limit) == Eviction(rows, Done(true))
  {
  }

  lemma {:induction false} WithinLimitLocks(rows: seq<Row>, i: nat, limit: nat)
    requires i < |rows| && SumSizes(rows) <= limit
    ensures !LockFails(rows, i, limit)
  {
    hide Floor, HasFinal, Removable, TotalAt, SumSizes;
    FloorAtMost(rows);
    TotalAtMost(rows, i);
  }

  /** With nothing locked or open: exactly if the entries that evictions would come to later, and the entry itself, are
      together over the limit. */
  lemma {:induction false} LockFailsUnheld(rows: seq<Row>, i: nat, limit: nat)
    requires NothingHeld(rows) && i < |rows|
    ensures LockFails(rows, i, limit) <==> TotalAt(rows, i) > limit
  {
    hide Free, Time, IsNewest, Selected, Comes, Reached, Blocks;
    var n := Newest(rows);
    NewestIsFinal(rows, n);
    FloorIsNewest(rows, n);
    if n != i {
      ComesIsOneWay(rows, n, i);
    }
    SelectedAt(rows, StaysAt(rows, i), n);
    if n == i {
      forall j | 0 <= j < |rows| && j != n ensures !StaysAt(rows, n)[j] {
        ComesIsOneWay(rows, n, j);
      }
      SelectedOnly(rows, StaysAt(rows, n), n);
    }
  }

  lemma {:induction false} Newest(rows: seq<Row>) returns (n: nat)
    requires rows != []
    ensures IsNewest(rows, n)
  {
    n := 0;
    for i := 1 to |rows|
      invariant n < i
      invariant forall j: nat | j < i :: Time(rows, j) <= Time(rows, n) && (j < n ==> Time(rows, j) < Time(rows, n))
    {
      if Time(rows, i) > Time(rows, n) {
        n := i;
      }
    }
  }

  /** The sizes of the entries that are not older than a time. */
  function SumNotOlder(rows: seq<Row>, t: int): nat {
    if rows == [] then 0
    else (if rows[0].entry.lastModified >= t then rows[0].entry.size else 0) + SumNotOlder(rows[1..], t)
  }

  lemma {:induction false} SelectedNotOlder(rows: seq<Row>, keep: seq<bool>, t: int)
    requires |keep| == |rows| && forall i | 0 <= i < |rows| :: keep[i] <==> rows[i].entry.lastModified >= t
    ensures Selected(rows, keep) == SumNotOlder(rows, t)
  {
    if rows != [] {
      SelectedNotOlder(rows[1..], keep[1..], t);
    }
  }

  /** If no other entry is exactly as old, these are the entries that are not older. */
  lemma {:induction false} LockFailsUnheldIff(rows: seq<Row>, i: nat, limit: nat)
    requires NothingHeld(rows) && i < |rows| && forall j: nat | j < |rows| && j != i :: Time(rows, j) != Time(rows, i)
    ensures LockFails(rows, i, limit) <==> SumNotOlder(rows, Time(rows, i)) > limit
  {
    hide Selected, SumNotOlder, LockFails, Waits;
    LockFailsUnheld(rows, i, limit);
    SelectedNotOlder(rows, StaysAt(rows, i), Time(rows, i));
  }

  /** The entry "a" is to be locked; CheckLimit meets the limit by evicting it. */
  lemma {:induction false} LockCanFail()
    ensures var rows := [Row("a", Entry(Unlocked, 0, 10, 1, 1)), Row("b", Entry(Unlocked, 0, 10, 1, 2))];
            LockFails(rows, 0, 15) && Evict(rows, 15) == Eviction([rows[1]], Done(true))
  {
    var rows := [Row("a", Entry(Unlocked, 0, 10, 1, 1)), Row("b", Entry(Unlocked, 0, 10, 1, 2))];
    TwoRows();
    assert Evict([rows[1]], 15) == Eviction([rows[1]], Done(true));
    LockFailsIff(rows, 0, 15);
  }

  /** Two evictable entries, both over the limit: the second turn of the scan reads past the end. */
  lemma {:induction false} SecondTurnCanFail()
    ensures var rows := [Row("a", Entry(Unlocked, 0, 10, 1, 1)), Row("b", Entry(Unlocked, 0, 10, 1, 2))];
            Scan(rows) == Chosen(0) && Evict(rows, 5) == Eviction([rows[1]], Undefined)
  {
    TwoRows();
  }

  lemma {:induction false} TwoRows()
    ensures var rows := [Row("a", Entry(Unlocked, 0, 10, 1, 1)), Row("b", Entry(Unlocked, 0, 10, 1, 2))];
            Scan(rows) == Chosen(0) && Free(rows, 0) && Without(rows, 0) == [rows[1]] && SumSizes(rows) == 20
            && SumSizes([rows[1]]) == 10 && Scan([rows[1]]) == PastEnd && Distinct(rows)
  {
    var rows := [Row("a", Entry(Unlocked, 0, 10, 1, 1)), Row("b", Entry(Unlocked, 0, 10, 1, 2))];
    assert OldestFrom(rows, 0, 1) == OldestFrom(rows, 1, 0) == OldestFrom(rows, 2, 0) == 0;
    assert rows[1..] == [rows[1]] && [rows[1]][1..] == [];
  }

  // Least recently modified first

  /** `after` is `before` without some entries that could be evicted, and none of those was modified later than an
      evictable entry that stayed. */
  ghost predicate LeastRecentEvicted(before: seq<Row>, after: seq<Row>) {
    && (forall r | r in after :: r in before)
    && (forall r | r in before :: r in after || Eligible(r.entry))
    && (forall v, r | v in before && v !in after && r in after && Eligible(r.entry) ::
          v.entry.lastModified <= r.entry.lastModified)
  }

  lemma {:induction false} EvictNothing(rows: seq<Row>)
    ensures LeastRecentEvicted(rows, rows)
  {
  }

  lemma {:induction false} OneMoreEvicted(all: seq<Row>, rows: seq<Row>, k: nat)
    requires LeastRecentEvicted(all, rows) && Scan(rows) == Chosen(k) && Free(rows, k)
    ensures LeastRecentEvicted(all, Without(rows, k))
  {
    hide Scan;
    RemovedRows(rows, k);
    ChosenIsLeastRecent(rows, k);
    var after := Without(rows, k);
    forall v, r | v in all && v !in after && r in after && Eligible(r.entry)
      ensures v.entry.lastModified <= r.entry.lastModified
    {
      var j: nat :| j < |rows| && rows[j] == r;
      assert Free(rows, j);
      if v in rows {
        assert v == rows[k];
      }
    }
  }
}
