/** The map of the disk cache: entries in the order of their ids, and the sum of their sizes. */
module CacheRows {

  datatype LockState = Unlocked | Locked | Unlocking

  datatype Entry = Entry(lockState: LockState, accessors: nat, size: nat, streams: nat, lastModified: int)

  /** One element of the map, which the cache walks in the order of the ids. */
  datatype Row = Row(id: string, entry: Entry)

  const NEW_ENTRY := Entry(Unlocked, 0, 0, 0, 0)

  /** May be evicted: neither locked nor open. */
  predicate Eligible(e: Entry) {
    e.lockState.Unlocked? && e.accessors == 0
  }

  // Ids

  /** The order of std::string: the first difference decides, and the end of a text comes before any character. */
  predicate IdLess(a: string, b: string) {
    b != "" && (a == "" || a[0] < b[0] || (a[0] == b[0] && IdLess(a[1..], b[1..])))
  }

  lemma {:induction false} IdLessAt(a: string, b: string, n: nat)
    requires n <= |a| && n <= |b| && a[..n] == b[..n]
    requires (n == |a| && n < |b|) || (n < |a| && n < |b| && a[n] < b[n])
    ensures IdLess(a, b)
  {
    if n > 0 {
      assert a[0] == a[..n][0] == b[..n][0] == b[0];
      assert a[1..][..n - 1] == a[..n][1..] == b[..n][1..] == b[1..][..n - 1];
      IdLessAt(a[1..], b[1..], n - 1);
    }
  }

  lemma {:induction false} IdLessIsTotal(a: string, b: string)
    ensures if a == b then !IdLess(a, b) else IdLess(a, b) <==> !IdLess(b, a)
  {
    if a != "" && b != "" {
      IdLessIsTotal(a[1..], b[1..]);
      assert a == [a[0]] + a[1..] && b == [b[0]] + b[1..];
    }
  }

  lemma {:induction false} IdLessIsTransitive(a: string, b: string, c: string)
    requires IdLess(a, b) && IdLess(b, c)
    ensures IdLess(a, c)
  {
    if a != "" && a[0] == b[0] == c[0] {
      IdLessIsTransitive(a[1..], b[1..], c[1..]);
    }
  }

  /** The map walks its entries in the order of their ids. */
  ghost predicate Sorted(rows: seq<Row>) {
    forall i, j | 0 <= i < j < |rows| :: IdLess(rows[i].id, rows[j].id)
  }

  lemma {:induction false} SortedIsDistinct(rows: seq<Row>)
    requires Sorted(rows)
    ensures Distinct(rows)
  {
    forall i, j | 0 <= i < j < |rows| ensures rows[i].id != rows[j].id {
      IdLessIsTotal(rows[i].id, rows[j].id);
    }
  }

  lemma {:induction false} SortedUpdate(rows: seq<Row>, i: nat, e: Entry)
    requires Sorted(rows) && i < |rows|
    ensures Sorted(rows[i := Row(rows[i].id, e)])
  {
    hide IdLess;
  }

  lemma {:induction false} SortedRemove(rows: seq<Row>, i: nat)
    requires Sorted(rows) && i < |rows|
    ensures Sorted(rows[..i] + rows[i + 1..])
  {
    hide IdLess;
    var after := rows[..i] + rows[i + 1..];
    assert forall k | 0 <= k < |after| :: after[k] == rows[Before(k, i)];
  }

  /** The place of a new id: behind the smaller ids and in front of the greater ones. */
  ghost predicate PlaceOf(rows: seq<Row>, id: string, p: nat) {
    && p <= |rows| && (forall j | 0 <= j < p :: IdLess(rows[j].id, id))
    && (forall j | p <= j < |rows| :: IdLess(id, rows[j].id))
  }

  lemma {:induction false} SortedInsert(rows: seq<Row>, p: nat, row: Row)
    requires Sorted(rows) && PlaceOf(rows, row.id, p)
    ensures Sorted(Inserted(rows, p, row))
  {
    hide IdLess;
    var after := Inserted(rows, p, row);
    forall i, j | 0 <= i < j < |after| ensures IdLess(after[i].id, after[j].id) {
      assert after[i] == if i < p then rows[i] else if i == p then row else rows[i - 1];
      assert after[j] == if j < p then rows[j] else if j == p then row else rows[j - 1];
    }
  }

  /** Where std::map looks for an id: the first one that is not smaller. */
  function LowerBound(rows: seq<Row>, id: string): (p: nat)
    ensures p <= |rows| && forall j | 0 <= j < p :: IdLess(rows[j].id, id)
    ensures p < |rows| ==> !IdLess(rows[p].id, id)
  {
    if rows == [] || !IdLess(rows[0].id, id) then 0 else 1 + LowerBound(rows[1..], id)
  }

  /** It finds the id if it is there, and else its place. */
  lemma {:induction false} LowerBoundFinds(rows: seq<Row>, id: string)
    requires Sorted(rows)
    ensures var p := LowerBound(rows, id);
            if p < |rows| && rows[p].id == id then Find(rows, id) == p
            else Find(rows, id) == |rows| && PlaceOf(rows, id, p)
  {
    hide IdLess, LowerBound;
    var p := LowerBound(rows, id);
    IdLessIsTotal(id, id);
    if p < |rows| && rows[p].id == id {
      SortedIsDistinct(rows);
      FindIs(rows, p);
    } else {
      forall j | p <= j < |rows| ensures IdLess(id, rows[j].id) {
        IdLessIsTotal(rows[p].id, id);
        if p < j {
          IdLessIsTransitive(id, rows[p].id, rows[j].id);
        }
      }
    }
  }

  // Rows

  function Without<T>(s: seq<T>, k: nat): (r: seq<T>)
    requires k < |s|
    ensures |r| == |s| - 1
    ensures forall i | 0 <= i < |r| :: r[i] == s[Before(i, k)]
  {
    s[..k] + s[k + 1..]
  }

  /** Where the i-th element was before the k-th was taken out. */
  function Before(i: nat, k: nat): nat {
    if i < k then i else i + 1
  }

  /** Where the i-th element is after the k-th was taken out. */
  function After(i: nat, k: nat): nat
    requires i != k
  {
    if i < k then i else i - 1
  }

  /** The position of an id, or the number of rows. */
  function Find(rows: seq<Row>, id: string): (i: nat)
    ensures i <= |rows|
    ensures i < |rows| ==> rows[i].id == id
    ensures forall j | 0 <= j < i :: rows[j].id != id
  {
    if rows == [] then 0
    else if rows[0].id == id then 0
    else 1 + Find(rows[1..], id)
  }

  ghost predicate Distinct(rows: seq<Row>) {
    forall i, j | 0 <= i < j < |rows| :: rows[i].id != rows[j].id
  }

  lemma {:induction false} FindIs(rows: seq<Row>, i: nat)
    requires Distinct(rows) && i < |rows|
    ensures Find(rows, rows[i].id) == i
  {
  }

  function SumSizes(rows: seq<Row>): nat {
    if rows == [] then 0 else rows[0].entry.size + SumSizes(rows[1..])
  }

  lemma {:induction false} SumSizesConcat(a: seq<Row>, b: seq<Row>)
    ensures SumSizes(a + b) == SumSizes(a) + SumSizes(b)
  {
    if a == [] {
      assert a + b == b;
    } else {
      assert (a + b)[1..] == a[1..] + b;
      SumSizesConcat(a[1..], b);
    }
  }

  lemma {:induction false} SumSizesAt(rows: seq<Row>, i: nat)
    requires i < |rows|
    ensures SumSizes(rows) == SumSizes(rows[..i]) + rows[i].entry.size + SumSizes(rows[i + 1..])
  {
    assert rows == rows[..i] + ([rows[i]] + rows[i + 1..]);
    SumSizesConcat(rows[..i], [rows[i]] + rows[i + 1..]);
    SumSizesConcat([rows[i]], rows[i + 1..]);
    assert [rows[i]][1..] == [];
  }

  lemma {:induction false} SumSizesUpdate(rows: seq<Row>, i: nat, e: Entry)
    requires i < |rows|
    ensures SumSizes(rows[i := Row(rows[i].id, e)]) == SumSizes(rows) - rows[i].entry.size + e.size
    ensures rows[i].entry.size <= SumSizes(rows)
  {
    var after := rows[i := Row(rows[i].id, e)];
    SumSizesAt(rows, i);
    SumSizesAt(after, i);
    assert after[..i] == rows[..i] && after[i + 1..] == rows[i + 1..];
  }

  lemma {:induction false} SumSizesRemove(rows: seq<Row>, i: nat)
    requires i < |rows|
    ensures SumSizes(rows[..i] + rows[i + 1..]) == SumSizes(rows) - rows[i].entry.size
    ensures rows[i].entry.size <= SumSizes(rows)
  {
    SumSizesAt(rows, i);
    SumSizesConcat(rows[..i], rows[i + 1..]);
  }

  lemma {:induction false} SumSizesInsert(rows: seq<Row>, i: nat, row: Row)
    requires i <= |rows|
    ensures SumSizes(Inserted(rows, i, row)) == SumSizes(rows) + row.entry.size
  {
    assert rows == rows[..i] + rows[i..];
    SumSizesConcat(rows[..i], rows[i..]);
    SumSizesConcat(rows[..i] + [row], rows[i..]);
    SumSizesConcat(rows[..i], [row]);
    assert [row][1..] == [];
  }

  function Inserted(rows: seq<Row>, p: nat, row: Row): seq<Row>
    requires p <= |rows|
  {
    rows[..p] + [row] + rows[p..]
  }

  lemma {:induction false} RemovedRows(rows: seq<Row>, i: nat)
    requires i < |rows|
    ensures forall r | r in rows[..i] + rows[i + 1..] :: r in rows
    ensures forall r | r in rows :: r in rows[..i] + rows[i + 1..] || r == rows[i]
  {
    assert rows == rows[..i] + [rows[i]] + rows[i + 1..];
  }
}
