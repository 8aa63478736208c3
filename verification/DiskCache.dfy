/** DiskCache: an LRU cache of streams on disk with per-resource locking and size accounting. */
module DiskCache {
  import opened CacheRows
  import opened CacheEviction

  /** An open stream: a DiskCacheAdapter from WriteResource or from ReadResource. */
  datatype Handle = Handle(id: string, index: nat, writer: bool)

  /** The files of the cache and their sizes. Different (id, index) pairs have different file names. */
  type Files = map<(string, nat), nat>

  // Handles

  /** How many handles are open on a resource. */
  function Count(handles: seq<Handle>, id: string): nat {
    if handles == [] then 0 else (if handles[0].id == id then 1 else 0) + Count(handles[1..], id)
  }

  lemma {:induction false} CountConcat(a: seq<Handle>, b: seq<Handle>, id: string)
    ensures Count(a + b, id) == Count(a, id) + Count(b, id)
  {
    if a == [] {
      assert a + b == b;
    } else {
      assert (a + b)[1..] == a[1..] + b;
      CountConcat(a[1..], b, id);
    }
  }

  lemma {:induction false} CountAdd(handles: seq<Handle>, h: Handle, id: string)
    ensures Count(handles + [h], id) == Count(handles, id) + if h.id == id then 1 else 0
  {
    CountConcat(handles, [h], id);
    assert [h][1..] == [];
  }

  lemma {:induction false} CountRemove(handles: seq<Handle>, i: nat, id: string)
    requires i < |handles|
    ensures Count(handles[..i] + handles[i + 1..], id) == Count(handles, id) - if handles[i].id == id then 1 else 0
  {
    assert handles == handles[..i] + ([handles[i]] + handles[i + 1..]);
    CountConcat(handles[..i], [handles[i]] + handles[i + 1..], id);
    CountConcat([handles[i]], handles[i + 1..], id);
    CountConcat(handles[..i], handles[i + 1..], id);
    assert [handles[i]][1..] == [];
  }

  lemma {:induction false} NoneCounted(handles: seq<Handle>, id: string)
    requires Count(handles, id) == 0
    ensures forall h | h in handles :: h.id != id
  {
    if handles != [] {
      NoneCounted(handles[1..], id);
      assert handles == [handles[0]] + handles[1..];
    }
  }

  lemma {:induction false} CountedIfOpen(handles: seq<Handle>, i: nat)
    requires i < |handles|
    ensures Count(handles, handles[i].id) > 0
  {
    if i != 0 { CountedIfOpen(handles[1..], i - 1); }
  }

  // The invariant

  /** The accessor count of an entry is the number of its handles, and an entry is only
      on the way to being unlocked while it has one. */
  ghost predicate RowAgrees(row: Row, handles: seq<Handle>) {
    && row.entry.accessors == Count(handles, row.id)
    && (row.entry.lockState.Unlocking? ==> row.entry.accessors > 0)
  }

  /** The entry of an open handle is in the map; an unlocked one is only read, any other is only written. */
  ghost predicate HandleAgrees(h: Handle, rows: seq<Row>) {
    var i := Find(rows, h.id);
    i < |rows| && (h.writer <==> !rows[i].entry.lockState.Unlocked?)
  }

  ghost predicate Agree(rows: seq<Row>, handles: seq<Handle>) {
    && Distinct(rows)
    && (forall i | 0 <= i < |rows| :: RowAgrees(rows[i], handles))
    && (forall k | 0 <= k < |handles| :: HandleAgrees(handles[k], rows))
  }

  function SumAccessors(rows: seq<Row>): nat {
    if rows == [] then 0 else rows[0].entry.accessors + SumAccessors(rows[1..])
  }

  function SumCounts(rows: seq<Row>, handles: seq<Handle>): nat {
    if rows == [] then 0 else Count(handles, rows[0].id) + SumCounts(rows[1..], handles)
  }

  lemma {:induction false} AccessorsAreCounts(rows: seq<Row>, handles: seq<Handle>)
    requires forall i | 0 <= i < |rows| :: RowAgrees(rows[i], handles)
    ensures SumAccessors(rows) == SumCounts(rows, handles)
  {
    if rows != [] {
      forall i | 0 <= i < |rows[1..]| ensures RowAgrees(rows[1..][i], handles) {
        assert rows[1..][i] == rows[i + 1];
      }
      assert RowAgrees(rows[0], handles);
      AccessorsAreCounts(rows[1..], handles);
    }
  }

  lemma {:induction false} OneMoreCounted(rows: seq<Row>, handles: seq<Handle>, h: Handle)
    requires Distinct(rows)
    ensures SumCounts(rows, [h] + handles) == SumCounts(rows, handles) + if Find(rows, h.id) < |rows| then 1 else 0
  {
    if rows != [] {
      assert ([h] + handles)[1..] == handles;
      OneMoreCounted(rows[1..], handles, h);
      assert forall j | 0 <= j < |rows[1..]| :: rows[1..][j] == rows[j + 1];
    }
  }

  lemma {:induction false} EveryHandleCounted(rows: seq<Row>, handles: seq<Handle>)
    requires Distinct(rows) && forall h | h in handles :: Find(rows, h.id) < |rows|
    ensures SumCounts(rows, handles) == |handles|
  {
    if handles == [] {
      NoHandleNoCount(rows);
    } else {
      assert handles == [handles[0]] + handles[1..];
      EveryHandleCounted(rows, handles[1..]);
      OneMoreCounted(rows, handles[1..], handles[0]);
    }
  }

  lemma {:induction false} NoHandleNoCount(rows: seq<Row>)
    ensures SumCounts(rows, []) == 0
  {
    if rows != [] { NoHandleNoCount(rows[1..]); }
  }

  /** The accessor counts of all entries add up to the number of open handles. */
  lemma {:induction false} AccessorsAddUp(rows: seq<Row>, handles: seq<Handle>)
    requires Agree(rows, handles)
    ensures SumAccessors(rows) == |handles|
  {
    AccessorsAreCounts(rows, handles);
    forall h | h in handles ensures Find(rows, h.id) < |rows| {
      var k :| 0 <= k < |handles| && handles[k] == h;
      assert HandleAgrees(handles[k], rows);
    }
    EveryHandleCounted(rows, handles);
  }

  // Steps that keep the invariant

  lemma {:induction false} FindUpdated(rows: seq<Row>, i: nat, e: Entry, id: string)
    requires i < |rows|
    ensures Find(rows[i := Row(rows[i].id, e)], id) == Find(rows, id)
  {
    var after := rows[i := Row(rows[i].id, e)];
    assert forall j | 0 <= j < |rows| :: after[j].id == rows[j].id;
  }

  /** A change of an entry that leaves its accessors alone and that no handle contradicts. */
  lemma {:induction false} UpdateKeeps(rows: seq<Row>, handles: seq<Handle>, i: nat, e: Entry)
    requires Agree(rows, handles) && i < |rows|
    requires RowAgrees(Row(rows[i].id, e), handles)
    requires (e.lockState.Unlocked? <==> rows[i].entry.lockState.Unlocked?) || e.accessors == 0
    ensures Agree(rows[i := Row(rows[i].id, e)], handles)
  {
    var after := rows[i := Row(rows[i].id, e)];
    forall k | 0 <= k < |handles| ensures HandleAgrees(handles[k], after) {
      assert HandleAgrees(handles[k], rows);
      FindUpdated(rows, i, e, handles[k].id);
      if handles[k].id == rows[i].id { CountedIfOpen(handles, k); }
    }
  }

  /** A new handle on an entry in the right state. */
  lemma {:induction false} OpenKeeps(rows: seq<Row>, handles: seq<Handle>, i: nat, e: Entry, h: Handle)
    requires Agree(rows, handles) && i < |rows| && h.id == rows[i].id
    requires e.lockState == rows[i].entry.lockState && e.accessors == rows[i].entry.accessors + 1
    requires h.writer <==> !e.lockState.Unlocked?
    ensures Agree(rows[i := Row(rows[i].id, e)], handles + [h])
  {
    var after, more := rows[i := Row(rows[i].id, e)], handles + [h];
    forall j | 0 <= j < |rows| ensures RowAgrees(after[j], more) {
      assert RowAgrees(rows[j], handles);
      CountAdd(handles, h, rows[j].id);
    }
    forall k | 0 <= k < |more| ensures HandleAgrees(more[k], after) {
      FindUpdated(rows, i, e, more[k].id);
      FindIs(rows, i);
      if k < |handles| { assert HandleAgrees(handles[k], rows); }
    }
  }

  /** An open handle has an entry, which counts it; the entry is locked or being unlocked exactly if it is a writer. */
  lemma {:induction false} OpenHandleIsKnown(rows: seq<Row>, handles: seq<Handle>, k: nat)
    requires Agree(rows, handles) && k < |handles|
    ensures var i := Find(rows, handles[k].id);
            i < |rows| && rows[i].entry.accessors > 0
            && (handles[k].writer <==> !rows[i].entry.lockState.Unlocked?)
  {
    assert HandleAgrees(handles[k], rows);
    assert RowAgrees(rows[Find(rows, handles[k].id)], handles);
    CountedIfOpen(handles, k);
  }

  /** A handle is closed. */
  lemma {:induction false} CloseKeeps(rows: seq<Row>, handles: seq<Handle>, k: nat, e: Entry)
    requires Agree(rows, handles) && k < |handles|
    requires var i := Find(rows, handles[k].id);
             i < |rows| && rows[i].entry.accessors > 0 && e.accessors == rows[i].entry.accessors - 1
             && (e.lockState == rows[i].entry.lockState || e.accessors == 0)
             && (e.lockState.Unlocking? ==> e.accessors > 0)
    ensures var i := Find(rows, handles[k].id);
            Agree(rows[i := Row(rows[i].id, e)], handles[..k] + handles[k + 1..])
  {
    var i := Find(rows, handles[k].id);
    var after, fewer := rows[i := Row(rows[i].id, e)], handles[..k] + handles[k + 1..];
    forall j | 0 <= j < |rows| ensures RowAgrees(after[j], fewer) {
      assert RowAgrees(rows[j], handles);
      CountRemove(handles, k, rows[j].id);
    }
    forall m | 0 <= m < |fewer| ensures HandleAgrees(fewer[m], after) {
      var h := handles[if m < k then m else m + 1];
      assert fewer[m] == h && HandleAgrees(h, rows);
      FindUpdated(rows, i, e, h.id);
      if h.id == rows[i].id { CountedIfOpen(fewer, m); }
    }
  }

  lemma {:induction false} FindRemoved(rows: seq<Row>, i: nat, id: string)
    requires Distinct(rows) && i < |rows| && rows[i].id != id
    ensures var after, j := rows[..i] + rows[i + 1..], Find(rows, id);
            Find(after, id) == (if j < i then j else j - 1)
            && (j < |rows| ==> after[Find(after, id)] == rows[j])
  {
    var after, j := rows[..i] + rows[i + 1..], Find(rows, id);
    var m := Find(after, id);
    forall x | 0 <= x < |after| ensures after[x] == rows[if x < i then x else x + 1] {}
    if j < |rows| {
      assert after[if j < i then j else j - 1].id == id;
    }
    if m < |after| {
      assert rows[if m < i then m else m + 1].id == id;
    }
  }

  /** An entry without handles is erased. */
  lemma {:induction false} EraseKeeps(rows: seq<Row>, handles: seq<Handle>, i: nat)
    requires Agree(rows, handles) && i < |rows| && rows[i].entry.accessors == 0
    ensures Agree(rows[..i] + rows[i + 1..], handles)
  {
    var after := rows[..i] + rows[i + 1..];
    forall x | 0 <= x < |after| ensures after[x] == rows[if x < i then x else x + 1] {}
    assert RowAgrees(rows[i], handles);
    NoneCounted(handles, rows[i].id);
    forall k | 0 <= k < |handles| ensures HandleAgrees(handles[k], after) {
      assert HandleAgrees(handles[k], rows) && handles[k] in handles;
      FindRemoved(rows, i, handles[k].id);
    }
  }

  lemma {:induction false} InsertedRows(rows: seq<Row>, p: nat, row: Row)
    requires p <= |rows|
    ensures var after := Inserted(rows, p, row);
            |after| == |rows| + 1
            && forall x | 0 <= x < |after| :: after[x] == if x < p then rows[x] else if x == p then row else rows[x - 1]
  {
  }

  lemma {:induction false} InsertedDistinct(rows: seq<Row>, p: nat, row: Row)
    requires Distinct(rows) && p <= |rows| && Find(rows, row.id) == |rows|
    ensures Distinct(Inserted(rows, p, row))
  {
    InsertedRows(rows, p, row);
  }

  lemma {:induction false} FindInserted(rows: seq<Row>, p: nat, row: Row, id: string)
    requires Distinct(rows) && p <= |rows| && Find(rows, row.id) == |rows| && Find(rows, id) < |rows|
    ensures var after, j := Inserted(rows, p, row), Find(rows, id);
            Find(after, id) == (if j < p then j else j + 1) && after[Find(after, id)] == rows[j]
  {
    InsertedRows(rows, p, row);
    InsertedDistinct(rows, p, row);
    var j := Find(rows, id);
    FindIs(Inserted(rows, p, row), if j < p then j else j + 1);
  }

  lemma {:induction false} OpenIdIsKnown(rows: seq<Row>, handles: seq<Handle>, id: string)
    requires Agree(rows, handles) && Count(handles, id) > 0
    ensures Find(rows, id) < |rows|
  {
    var k := OpenHandle(handles, id);
    assert HandleAgrees(handles[k], rows);
  }

  lemma {:induction false} InsertedRowsAgree(rows: seq<Row>, handles: seq<Handle>, p: nat, row: Row)
    requires p <= |rows| && RowAgrees(row, handles)
    requires forall i | 0 <= i < |rows| :: RowAgrees(rows[i], handles)
    ensures var after := Inserted(rows, p, row); forall x | 0 <= x < |after| :: RowAgrees(after[x], handles)
  {
    InsertedRows(rows, p, row);
    var after := Inserted(rows, p, row);
    hide Inserted, RowAgrees;
    forall x | 0 <= x < |after| ensures RowAgrees(after[x], handles) {
      var y := if x < p then x else x - 1;
      assert after[x] == if x == p then row else rows[y];
      if x != p {
        assert RowAgrees(rows[y], handles);
      }
    }
  }

  lemma {:induction false} InsertedHandlesAgree(rows: seq<Row>, handles: seq<Handle>, p: nat, row: Row)
    requires Agree(rows, handles) && p <= |rows| && Find(rows, row.id) == |rows|
    ensures forall k | 0 <= k < |handles| :: HandleAgrees(handles[k], Inserted(rows, p, row))
  {
    InsertedRows(rows, p, row);
    hide Inserted, RowAgrees;
    forall k | 0 <= k < |handles| ensures HandleAgrees(handles[k], Inserted(rows, p, row)) {
      assert HandleAgrees(handles[k], rows);
      FindInserted(rows, p, row, handles[k].id);
    }
  }

  /** A new entry is inserted at its place in the order. */
  lemma {:induction false} InsertKeeps(rows: seq<Row>, handles: seq<Handle>, p: nat, row: Row)
    requires Agree(rows, handles) && p <= |rows| && Find(rows, row.id) == |rows|
    requires row.entry.accessors == 0 && row.entry.lockState.Unlocked?
    ensures Agree(Inserted(rows, p, row), handles)
  {
    hide Inserted, Find, HandleAgrees;
    if Count(handles, row.id) > 0 {
      OpenIdIsKnown(rows, handles, row.id);
    }
    InsertedDistinct(rows, p, row);
    InsertedRowsAgree(rows, handles, p, row);
    InsertedHandlesAgree(rows, handles, p, row);
  }

  lemma {:induction false} OpenHandle(handles: seq<Handle>, id: string) returns (k: nat)
    requires Count(handles, id) > 0
    ensures k < |handles| && handles[k].id == id
  {
    if handles[0].id == id {
      k := 0;
    } else {
      k := OpenHandle(handles[1..], id);
      k := k + 1;
    }
  }

  // Sizes of files

  /** What one stream contributes to the size of its entry: its file, unless a writer has it open. */
  function Closed(files: Files, handles: seq<Handle>, id: string, index: nat): nat {
    if (id, index) in files && Handle(id, index, true) !in handles then files[(id, index)] else 0
  }

  function ClosedSize(files: Files, handles: seq<Handle>, id: string, n: nat): nat {
    if n == 0 then 0 else ClosedSize(files, handles, id, n - 1) + Closed(files, handles, id, n - 1)
  }

  /** Every entry has the size of its files with no open writer; files and writers belong to known
      streams; and no stream has two writers. */
  ghost predicate Exact(rows: seq<Row>, handles: seq<Handle>, files: Files) {
    && (forall i | 0 <= i < |rows| :: SizeIsExact(rows[i], handles, files))
    && (forall f | f in files :: Known(rows, f.0, f.1))
    && (forall k | 0 <= k < |handles| :: handles[k].writer ==> Known(rows, handles[k].id, handles[k].index))
    && (forall k, m | 0 <= k < m < |handles| :: handles[k].writer ==> handles[k] != handles[m])
  }

  ghost predicate SizeIsExact(row: Row, handles: seq<Handle>, files: Files) {
    row.entry.size == ClosedSize(files, handles, row.id, row.entry.streams)
  }

  predicate Known(rows: seq<Row>, id: string, index: nat) {
    var i := Find(rows, id);
    i < |rows| && index < rows[i].entry.streams
  }

  lemma {:induction false} SameClosedSize(f: Files, g: Files, a: seq<Handle>, b: seq<Handle>, id: string, n: nat)
    requires forall j | 0 <= j < n :: Closed(f, a, id, j) == Closed(g, b, id, j)
    ensures ClosedSize(f, a, id, n) == ClosedSize(g, b, id, n)
    decreases n
  {
    hide Closed;
    if n != 0 { SameClosedSize(f, g, a, b, id, n - 1); }
  }

  lemma {:induction false} OneClosedSize(f: Files, g: Files, a: seq<Handle>, b: seq<Handle>, id: string, n: nat,
                                         index: nat)
    requires index < n && forall j | 0 <= j < n && j != index :: Closed(f, a, id, j) == Closed(g, b, id, j)
    ensures ClosedSize(g, b, id, n) + Closed(f, a, id, index) == ClosedSize(f, a, id, n) + Closed(g, b, id, index)
    ensures Closed(f, a, id, index) <= ClosedSize(f, a, id, n)
    decreases n
  {
    hide Closed;
    if index == n - 1 {
      SameClosedSize(f, g, a, b, id, n - 1);
    } else {
      OneClosedSize(f, g, a, b, id, n - 1, index);
    }
  }

  lemma {:induction false} MoreStreams(f: Files, a: seq<Handle>, id: string, n: nat, m: nat)
    requires n <= m && forall j | n <= j < m :: Closed(f, a, id, j) == 0
    ensures ClosedSize(f, a, id, m) == ClosedSize(f, a, id, n)
    decreases m
  {
    hide Closed;
    if n < m { MoreStreams(f, a, id, n, m - 1); }
  }

  /** FileStream::GetSize, which leaves 0 for a missing file. */
  function FileSize(files: Files, id: string, index: nat): nat {
    if (id, index) in files then files[(id, index)] else 0
  }

  /** An entry after one of its streams was opened for writing. */
  function WrittenEntry(e: Entry, index: nat, previous: nat): (r: Entry)
    requires previous <= e.size
    ensures index < r.streams && r.streams >= e.streams
    ensures r.lockState == e.lockState && r.accessors == e.accessors + 1
  {
    e.(streams := if e.streams > index then e.streams else index + 1, size := e.size - previous,
       accessors := e.accessors + 1)
  }

  /** What the file of a writer adds to its entry when it is closed. */
  function WriterSize(files: Files, h: Handle): nat {
    if h.writer then FileSize(files, h.id, h.index) else 0
  }

  /** An entry after one of its streams was closed; the last writer unlocks an entry that is being unlocked. */
  function ReleasedEntry(e: Entry, newSize: nat, now: int): (r: Entry)
    requires e.accessors > 0
    ensures r.accessors == e.accessors - 1 && r.size == e.size + newSize && r.streams == e.streams
    ensures r.lockState == e.lockState || r.accessors == 0
    ensures r.lockState.Unlocking? ==> r.accessors > 0
  {
    var r := e.(accessors := e.accessors - 1, size := e.size + newSize);
    if e.lockState.Unlocking? && r.accessors == 0 then r.(lastModified := now, lockState := Unlocked) else r
  }

  /** What closing a stream does to its entry, field by field. */
  lemma {:induction false} ReleasedIs(e: Entry, files: Files, h: Handle, now: int)
    requires e.accessors > 0
    ensures WriterSize(files, h) == if h.writer then FileSize(files, h.id, h.index) else 0
    ensures var size := e.size + if h.writer && (h.id, h.index) in files then files[(h.id, h.index)] else 0;
            ReleasedEntry(e, WriterSize(files, h), now) ==
            if e.lockState == Unlocking && e.accessors == 1 then Entry(Unlocked, 0, size, e.streams, now)
            else e.(accessors := e.accessors - 1, size := size)
  {
  }

  /** Opening a stream for writing takes its file out of the entry's size, and the file's old size never
      exceeds the entry's. */
  lemma {:induction false} WriteSizes(f: Files, a: seq<Handle>, id: string, index: nat, streams: nat)
    requires Handle(id, index, true) !in a
    requires forall j | streams <= j :: (id, j) !in f
    ensures var g, b := f[(id, index) := 0], a + [Handle(id, index, true)];
            var more := if streams > index then streams else index + 1;
            var previous := if (id, index) in f then f[(id, index)] else 0;
            previous <= ClosedSize(f, a, id, streams)
            && ClosedSize(g, b, id, more) == ClosedSize(f, a, id, streams) - previous
  {
    var g, b := f[(id, index) := 0], a + [Handle(id, index, true)];
    var more := if streams > index then streams else index + 1;
    MoreStreams(f, a, id, streams, more);
    OneClosedSize(f, g, a, b, id, more, index);
  }

  // Eviction

  /** The map after GetOrCreateEntry, and the position of the entry in it. */
  ghost predicate Entered(rows: seq<Row>, id: string, now: int, after: seq<Row>, i: nat) {
    && i < |after| && Find(after, id) == i
    && if Find(rows, id) < |rows| then after == rows
       else PlaceOf(rows, id, i) && after == Inserted(rows, i, Row(id, Entry(Unlocked, 0, 0, 0, now)))
  }

  /** Every entry that may not be evicted is still there. */
  ghost predicate HeldRemain(before: seq<Row>, after: seq<Row>) {
    forall r | r in before && !Eligible(r.entry) :: exists s | s in after :: s.id == r.id
  }

  /** The two checks of LockResource: not locked, and not being read. */
  predicate MayLock(e: Entry) {
    !e.lockState.Locked? && !(e.lockState.Unlocked? && e.accessors > 0)
  }

  class DiskCache {
    const maxCache: nat
    var totalSize: nat
    var totalAccessors: nat
    var rows: seq<Row>

    /** The open streams and the file system, which the cache shares with their users. */
    var handles: seq<Handle>
    var files: Files

    /** Whether files that are there can always be deleted and opened, and new ones be made. */
    const reliable: bool

    /** The locking and accounting invariant. */
    ghost predicate Valid()
      reads this
    {
      Agree(rows, handles) && Sorted(rows) && totalSize == SumSizes(rows) && totalAccessors == |handles|
    }

    ghost predicate FilesMatch()
      reads this
    {
      Exact(rows, handles, files)
    }

    /** Initialize, for entries that InitializeEntries found on disk. */
    constructor (maxCache: nat, rows: seq<Row>, files: Files, reliable: bool)
      requires Sorted(rows) && forall i | 0 <= i < |rows| :: Eligible(rows[i].entry)
      ensures Valid() && handles == [] && this.rows == rows && this.files == files
      ensures this.maxCache == maxCache && this.reliable == reliable
    {
      SortedIsDistinct(rows);
      this.maxCache, this.rows, this.files, this.reliable := maxCache, rows, files, reliable;
      totalSize, totalAccessors, handles := SumSizes(rows), 0, [];
    }

    /** FileSystem: a delete may fail, unless the file system is reliable. */
    method DeleteFile(id: string, index: nat) returns (ok: bool)
      requires (id, index) in files
      modifies this`files
      ensures reliable ==> ok
      ensures files == if ok then old(files) - {(id, index)} else old(files)
    {
      ok := *;
      ok := ok || reliable;
      if ok {
        files := files - {(id, index)};
      }
    }

    /** The file loop of DeleteResource. */
    method DeleteFiles(id: string, streams: nat) returns (success: bool)
      modifies this`files
      ensures reliable ==> success
      ensures files.Keys <= old(files).Keys && forall f | f in files :: files[f] == old(files)[f]
      ensures forall f | f in old(files) && f.0 != id :: f in files
      ensures success ==> forall f | f in files :: f.0 == id ==> f.1 >= streams
    {
      success := true;
      for index := 0 to streams
        invariant reliable ==> success
        invariant files.Keys <= old(files).Keys && forall f | f in files :: files[f] == old(files)[f]
        invariant forall f | f in old(files) && f.0 != id :: f in files
        invariant success ==> forall f | f in files :: f.0 == id ==> f.1 >= index
      {
        if (id, index) in files {
          var ok := DeleteFile(id, index);
          if !ok {
            success := false;
          }
        }
      }
    }

    /** DeleteResource: nothing to do for an unknown resource, refused for a locked or open one; otherwise the
        entry goes, and its size, even if a file stays behind. */
    method DeleteResource(id: string) returns (ok: bool)
      requires Valid()
      modifies this`files, this`totalSize, this`rows
      ensures Valid()
      ensures var i := Find(old(rows), id);
              if i == |old(rows)| then ok && rows == old(rows)
              else if old(rows)[i].entry.lockState != Unlocked || old(rows)[i].entry.accessors > 0 then
                !ok && rows == old(rows)
              else rows == old(rows)[..i] + old(rows)[i + 1..] && (reliable ==> ok)
      ensures rows == old(rows) ==> files == old(files)
      ensures old(FilesMatch()) && ok ==> FilesMatch()
    {
      var i := Find(rows, id);
      if i == |rows| {
        return true;
      }
      if !Eligible(rows[i].entry) {
        return false;
      }
      ghost var before := files;
      ok := DeleteFiles(id, rows[i].entry.streams);
      SumSizesRemove(rows, i);
      EraseKeeps(rows, handles, i);
      SortedRemove(rows, i);
      if Exact(rows, handles, before) && ok {
        EraseSizes(rows, handles, before, files, i);
      }
      totalSize := totalSize - rows[i].entry.size;
      rows := rows[..i] + rows[i + 1..];
    }

    /** The scan of CheckLimit. */
    method FindOldest() returns (r: ScanResult)
      ensures r == Scan(rows)
    {
      var oldest := |rows|;
      var it := 0;
      while it < |rows|
        invariant 0 <= it <= |rows| && oldest == |rows|
        invariant forall j | 0 <= j < it :: !Free(rows, j)
      {
        if Free(rows, it) {
          oldest := it;
          break;
        }
        it := it + 1;
      }
      FirstEligibleIs(rows, oldest);
      if oldest == |rows| {
        return AllLocked;
      }
      ghost var e := oldest;
      it := oldest;
      oldest := oldest + 1;
      if oldest == |rows| {
        return PastEnd;
      }
      while it < |rows|
        invariant 0 <= it <= |rows| && 0 <= oldest < |rows|
        invariant OldestFrom(rows, it, oldest) == OldestFrom(rows, e, e + 1)
      {
        if rows[it].entry.lastModified < rows[oldest].entry.lastModified {
          oldest := it;
        }
        it := it + 1;
      }
      return Chosen(oldest);
    }

    /** CheckLimit evicts until the cache is within its limit. It only evicts entries that are neither locked nor
        open, least recently modified first, and says so only if the limit is met. It does what Evict does until a
        file cannot be deleted; how that ends depends on the map before the call. */
    method CheckLimit() returns (out: Outcome)
      requires Valid()
      modifies this`files, this`totalSize, this`rows
      ensures Valid()
      ensures LeastRecentEvicted(old(rows), rows)
      ensures reliable || out != Done(false) ==> Evict(old(rows), maxCache) == Eviction(rows, out)
      ensures out == Undefined ==> HasFinal(old(rows)) && Floor(old(rows)) > maxCache
      ensures reliable && HasFinal(old(rows)) && Floor(old(rows)) > maxCache ==> out == Undefined
      ensures out == Undefined ==> totalSize > maxCache && Scan(rows) == PastEnd
      ensures out == Done(true) ==> totalSize <= maxCache && Floor(old(rows)) <= maxCache
      ensures reliable && Floor(old(rows)) <= maxCache ==> out == Done(true)
      ensures reliable && out == Done(false) ==>
                totalSize > maxCache
                && if Scan(rows).Chosen? then !Free(rows, Scan(rows).index) else Scan(rows) == AllLocked
      ensures old(FilesMatch()) && reliable ==> FilesMatch()
      ensures old(totalSize) <= maxCache ==> rows == old(rows) && files == old(files) && out == Done(true)
    {
      hide Sorted, LeastRecentEvicted, RowAgrees, HandleAgrees, Exact, SumSizes, Scan, HasFinal, Floor;
      EvictNothing(rows);
      RunEnds(rows, maxCache);
      while totalSize > maxCache
        invariant Valid()
        invariant LeastRecentEvicted(old(rows), rows)
        invariant Evict(rows, maxCache) == Evict(old(rows), maxCache)
        invariant old(FilesMatch()) && reliable ==> FilesMatch()
        invariant old(totalSize) <= maxCache ==> rows == old(rows) && files == old(files)
        decreases |rows|
      {
        var r := FindOldest();
        match r {
          case AllLocked => return Done(false);
          case PastEnd => return Undefined;
          case Chosen(k) =>
            FindIs(rows, k);
            if Free(rows, k) {
              OneMoreEvicted(old(rows), rows, k);
            }
            var ok := DeleteResource(rows[k].id);
            if !ok {
              return Done(false);
            }
        }
      }
      return Done(true);
    }

    /** GetOrCreateEntry with `create`: the entry's position; a new one goes to its place in the order of ids. */
    method GetOrCreateEntry(id: string, now: int) returns (i: nat)
      requires Valid()
      modifies this`rows
      ensures Valid() && Entered(old(rows), id, now, rows, i)
      ensures old(FilesMatch()) ==> FilesMatch()
    {
      i := LowerBound(rows, id);
      LowerBoundFinds(rows, id);
      if i == |rows| || rows[i].id != id {
        InsertEntry(i, Row(id, NEW_ENTRY.(lastModified := now)));
      }
    }

    method InsertEntry(p: nat, row: Row)
      requires Valid() && Find(rows, row.id) == |rows| && PlaceOf(rows, row.id, p)
      requires row.entry.accessors == row.entry.size == row.entry.streams == 0 && row.entry.lockState == Unlocked
      modifies this`rows
      ensures Valid() && rows == Inserted(old(rows), p, row) && Find(rows, row.id) == p
      ensures old(FilesMatch()) ==> FilesMatch()
    {
      hide Sorted, IdLess;
      InsertKeeps(rows, handles, p, row);
      SortedInsert(rows, p, row);
      InsertedRows(rows, p, row);
      SumSizesInsert(rows, p, row);
      if FilesMatch() {
        InsertSizes(rows, handles, files, p, row);
      }
      FindIs(Inserted(rows, p, row), p);
      rows := Inserted(rows, p, row);
    }

    /** A change of one entry that keeps its accessors and size. */
    method SetEntry(i: nat, e: Entry)
      requires Valid() && i < |rows|
      requires e.accessors == rows[i].entry.accessors && e.size == rows[i].entry.size
      requires e.streams == rows[i].entry.streams
      requires e.lockState.Unlocking? ==> e.accessors > 0
      requires (e.lockState.Unlocked? <==> rows[i].entry.lockState.Unlocked?) || e.accessors == 0
      modifies this`rows
      ensures Valid() && rows == old(rows)[i := Row(old(rows)[i].id, e)]
      ensures old(FilesMatch()) ==> FilesMatch()
    {
      assert RowAgrees(rows[i], handles);
      UpdateKeeps(rows, handles, i, e);
      SortedUpdate(rows, i, e);
      SumSizesUpdate(rows, i, e);
      if FilesMatch() {
        UpdateSizes(rows, handles, files, i, e);
      }
      rows := rows[i := Row(rows[i].id, e)];
    }

    /** LockResource refuses a locked resource and one that is being read. When it has to make room it can find its
        own entry evicted by CheckLimit, and then uses a dangling pointer, or CheckLimit reads past the end of the map:
        exactly if LockFails says so of the map that GetOrCreateEntry leaves. */
    method LockResource(id: string, now: int) returns (out: Outcome)
      requires Valid()
      modifies this`files, this`totalSize, this`rows
      ensures Valid()
      ensures old(FilesMatch()) && reliable ==> FilesMatch()
      ensures out == Done(true) ==> Find(rows, id) < |rows| && rows[Find(rows, id)].entry.lockState == Locked
      ensures out == Done(true) && old(totalSize) > maxCache ==> totalSize <= maxCache
      ensures exists entered: seq<Row>, i: nat ::
                Entered(old(rows), id, now, entered, i)
                && (out == Done(true) ==> LockedAfter(entered, i, rows))
                && (out == Undefined ==> MayLock(entered[i].entry) && LockFails(entered, i, maxCache))
                && (reliable && MayLock(entered[i].entry) && LockFails(entered, i, maxCache) ==> out == Undefined)
                && (MayLock(entered[i].entry) && old(totalSize) <= maxCache ==> out == Done(true))
                && (reliable && MayLock(entered[i].entry) ==>
                      (out == Done(true) <==> Floor(entered) <= maxCache && !LockFails(entered, i, maxCache)))
      ensures var i := Find(old(rows), id);
              i < |old(rows)| ==>
                (out == Undefined ==> MayLock(old(rows)[i].entry) && LockFails(old(rows), i, maxCache))
                && (reliable && MayLock(old(rows)[i].entry) && LockFails(old(rows), i, maxCache) ==> out == Undefined)
                && (reliable && MayLock(old(rows)[i].entry) ==>
                      (out == Done(true) <==> Floor(old(rows)) <= maxCache && !LockFails(old(rows), i, maxCache)))
      ensures Find(old(rows), id) == |old(rows)| && old(totalSize) <= maxCache ==> out == Done(true)
      ensures HeldRemain(old(rows), rows)
      ensures var i := Find(old(rows), id);
              i < |old(rows)| ==>
                var e := old(rows)[i].entry;
                if e.lockState == Locked || (e.lockState == Unlocked && e.accessors > 0) then
                  out == Done(false) && rows == old(rows)
                else old(totalSize) <= maxCache ==> out == Done(true)
    {
      hide Sorted, RowAgrees, HandleAgrees, Exact, SumSizes, LockFails, Eligible, Agree, Distinct, Evict;
      var i := GetOrCreateEntry(id, now);
      ghost var entered := rows;
      HeldIsEntered(old(rows), id, now, rows, i);
      out := LockEntered(i);
      assert Entered(old(rows), id, now, entered, i);
    }

    /** The map after the evictions that make room, with the k-th entry locked. */
    ghost predicate LockedAfter(before: seq<Row>, k: nat, after: seq<Row>)
      requires k < |before|
    {
      var r := Evict(before, maxCache).rows;
      var i := Find(r, before[k].id);
      i < |r| && after == r[i := Row(before[k].id, before[k].entry.(lockState := Locked))]
      && Find(after, before[k].id) == i
    }

    /** LockResource behind GetOrCreateEntry. */
    method LockEntered(k: nat) returns (out: Outcome)
      requires Valid() && k < |rows|
      modifies this`files, this`totalSize, this`rows
      ensures Valid()
      ensures old(FilesMatch()) && reliable ==> FilesMatch()
      ensures out == Done(true) ==> LockedAfter(old(rows), k, rows)
      ensures out == Done(true) && old(totalSize) > maxCache ==> totalSize <= maxCache
      ensures out == Undefined ==> MayLock(old(rows)[k].entry) && LockFails(old(rows), k, maxCache)
      ensures reliable && MayLock(old(rows)[k].entry) && LockFails(old(rows), k, maxCache) ==> out == Undefined
      ensures MayLock(old(rows)[k].entry) && old(totalSize) <= maxCache ==> out == Done(true)
      ensures reliable && MayLock(old(rows)[k].entry) ==>
                (out == Done(true) <==> Floor(old(rows)) <= maxCache && !LockFails(old(rows), k, maxCache))
      ensures HeldRemain(old(rows), rows)
      ensures !MayLock(old(rows)[k].entry) ==> out == Done(false) && rows == old(rows)
    {
      hide Sorted, RowAgrees, HandleAgrees, Exact, SumSizes, LockFails, Eligible, HeldRemain, LeastRecentEvicted;
      hide Evict, Floor, HasFinal;
      var i, entry, id := k, rows[k].entry, rows[k].id;
      EvictNothing(rows);
      HeldSurvives(rows, rows);
      if !MayLock(entry) {
        return Done(false);
      }
      LockFailsIff(rows, k, maxCache);
      if totalSize > maxCache {
        out := CheckLimit();
        HeldSurvives(old(rows), rows);
        if out != Done(true) {
          return;
        }
        i := Find(rows, id);
        if i == |rows| {
          return Undefined;
        }
        SurvivorIsUnchanged(old(rows), rows, id);
        FindIs(old(rows), k);
      } else {
        WithinLimitLocks(rows, k, maxCache);
        FloorAtMost(rows);
        WithinLimitStays(rows, maxCache);
        FindIs(rows, k);
      }
      HeldRemainLocked(old(rows), rows, i, entry.(lockState := Locked));
      SetLocked(i, entry);
      return Done(true);
    }

    method SetLocked(i: nat, entry: Entry)
      requires Valid() && i < |rows| && rows[i].entry == entry
      requires !entry.lockState.Unlocked? || entry.accessors == 0
      modifies this`rows
      ensures Valid() && rows == old(rows)[i := Row(old(rows)[i].id, entry.(lockState := Locked))]
      ensures Find(rows, old(rows)[i].id) == i
      ensures old(FilesMatch()) ==> FilesMatch()
    {
      assert RowAgrees(rows[i], handles);
      SetEntry(i, entry.(lockState := Locked));
      FindIs(rows, i);
    }

    /** FileStream::Open: it may fail, unless the file system is reliable and the file is there or is made. */
    method OpenFile(found: bool) returns (ok: bool)
      ensures reliable && found ==> ok
    {
      ok := *;
      ok := ok || (reliable && found);
    }

    /** WriteResource opens a stream of a locked resource for writing. The file's old size leaves the entry and the
        total; while sizes are exact and the stream has no other writer, the clamp of the source never acts. */
    method WriteResource(id: string, index: nat) returns (ok: bool, clamped: bool)
      requires Valid() && Find(rows, id) < |rows|
      modifies this`files, this`handles, this`rows, this`totalSize, this`totalAccessors
      ensures Valid()
      ensures handles == old(handles) + if ok then [Handle(id, index, true)] else []
      ensures ok ==> var i, e := Find(old(rows), id), old(rows)[Find(old(rows), id)].entry;
                     var size := if (id, index) in old(files) then old(files)[(id, index)] else 0;
                     var previous := if clamped then e.size else size;
                     && e.lockState == Locked && (clamped <==> size > e.size)
                     && rows == old(rows)[i := Row(id, Entry(Locked, e.accessors + 1, e.size - previous,
                                                             if index < e.streams then e.streams else index + 1,
                                                             e.lastModified))]
                     && files == old(files)[(id, index) := 0]
      ensures !ok ==> rows == old(rows) && files == old(files) && totalSize == old(totalSize)
      ensures reliable && old(rows)[Find(old(rows), id)].entry.lockState == Locked ==> ok
      ensures old(FilesMatch()) && Handle(id, index, true) !in old(handles) ==> !clamped && FilesMatch()
    {
      hide Sorted, RowAgrees, HandleAgrees, SumSizes, Exact;
      var i := Find(rows, id);
      var entry := rows[i].entry;
      if !entry.lockState.Locked? {
        return false, false;
      }
      var previousSize := FileSize(files, id, index);
      if FilesMatch() && Handle(id, index, true) !in handles {
        WriteKeepsSizes(rows, handles, files, i, index);
      }
      clamped := previousSize > entry.size;
      if clamped {
        previousSize := entry.size;
      }
      ok := OpenFile(true);
      if !ok {
        return;
      }
      var entered := WrittenEntry(entry, index, previousSize);
      SortedUpdate(rows, i, entered);
      OpenKeeps(rows, handles, i, entered, Handle(id, index, true));
      SumSizesUpdate(rows, i, entered);
      files := files[(id, index) := 0];
      handles := handles + [Handle(id, index, true)];
      rows := rows[i := Row(id, entered)];
      totalSize := totalSize - previousSize;
      totalAccessors := totalAccessors + 1;
    }

    /** Whoever holds a writer changes the size of its file. */
    method WriterWrites(k: nat, size: nat)
      requires Valid() && k < |handles| && handles[k].writer
      modifies this`files
      ensures Valid() && (old(FilesMatch()) ==> FilesMatch())
    {
      var h := handles[k];
      if FilesMatch() {
        OpenFileMayChange(rows, handles, files, k, size);
      }
      files := files[(h.id, h.index) := size];
    }

    /** ReadResource opens a stream of an unlocked resource for reading. */
    method ReadResource(id: string, index: nat) returns (ok: bool)
      requires Valid() && Find(rows, id) < |rows|
      modifies this`handles, this`rows, this`totalAccessors
      ensures Valid() && (old(FilesMatch()) ==> FilesMatch())
      ensures handles == old(handles) + if ok then [Handle(id, index, false)] else []
      ensures ok ==> var i, e := Find(old(rows), id), old(rows)[Find(old(rows), id)].entry;
                     && e.lockState == Unlocked && index < e.streams
                     && rows == old(rows)[i := Row(id, e.(accessors := e.accessors + 1))]
      ensures !ok ==> rows == old(rows)
      ensures var e := old(rows)[Find(old(rows), id)].entry;
              reliable && e.lockState == Unlocked && index < e.streams && (id, index) in files ==> ok
    {
      hide Sorted, RowAgrees, HandleAgrees, SumSizes, Closed;
      var i := Find(rows, id);
      var entry := rows[i].entry;
      if !entry.lockState.Unlocked? {
        return false;
      }
      if index >= entry.streams {
        return false;
      }
      ok := OpenFile((id, index) in files);
      if !ok {
        return;
      }
      var entered := entry.(accessors := entry.accessors + 1);
      SortedUpdate(rows, i, entered);
      OpenKeeps(rows, handles, i, entered, Handle(id, index, false));
      SumSizesUpdate(rows, i, entered);
      if FilesMatch() {
        ReadKeepsSizes(rows, handles, files, i, entered, Handle(id, index, false));
      }
      handles := handles + [Handle(id, index, false)];
      rows := rows[i := Row(id, entered)];
      totalAccessors := totalAccessors + 1;
    }

    /** UnlockResource: at once, or, while writers are open, when the last of them is released. */
    method UnlockResource(id: string, now: int) returns (out: Outcome)
      requires Valid() && Find(rows, id) < |rows|
      modifies this`files, this`totalSize, this`rows
      ensures Valid()
      ensures old(FilesMatch()) && reliable ==> FilesMatch()
      ensures var e := old(rows)[Find(old(rows), id)].entry;
              && (e.lockState != Locked ==> out == Done(false) && rows == old(rows))
              && (e.lockState == Locked && e.accessors > 0 ==>
                    out == Done(true)
                    && rows == old(rows)[Find(old(rows), id) := Row(id, e.(lockState := Unlocking))])
              && (e.lockState == Locked && e.accessors == 0 ==> out == Done(true) || out == Undefined)
      ensures var i, e := Find(old(rows), id), old(rows)[Find(old(rows), id)].entry;
              var freed := old(rows)[i := Row(id, e.(lockState := Unlocked, lastModified := now))];
              e.lockState == Locked && e.accessors == 0 ==>
                LeastRecentEvicted(freed, rows)
                && (reliable ==> rows == Evict(freed, maxCache).rows)
                && (out == Undefined ==> HasFinal(freed) && Floor(freed) > maxCache)
                && (reliable && HasFinal(freed) && Floor(freed) > maxCache ==> out == Undefined)
      ensures forall r | r in rows && r.id == id :: r.entry.lockState != Locked
    {
      hide Sorted, RowAgrees, HandleAgrees, SumSizes, Exact;
      var i := Find(rows, id);
      var entry := rows[i].entry;
      forall j | 0 <= j < |rows| && rows[j].id == id ensures j == i {
        FindIs(rows, j);
      }
      if !entry.lockState.Locked? {
        return Done(false);
      }
      if entry.accessors > 0 {
        SetEntry(i, entry.(lockState := Unlocking));
      } else {
        SetEntry(i, entry.(lockState := Unlocked, lastModified := now));
        out := CheckLimit();
        if out == Undefined {
          return;
        }
      }
      return Done(true);
    }

    /** The part of ReleaseResource before CheckLimit. */
    method CloseHandle(k: nat, now: int) returns (unlocked: bool)
      requires Valid() && k < |handles|
      modifies this`handles, this`totalSize, this`totalAccessors, this`rows
      ensures Valid() && handles == old(handles)[..k] + old(handles)[k + 1..]
      ensures old(FilesMatch()) ==> FilesMatch()
      ensures var h := old(handles)[k];
              var i := Find(old(rows), h.id);
              && i < |old(rows)| && old(rows)[i].entry.accessors > 0
              && var e := old(rows)[i].entry;
                 var size := e.size + if h.writer && (h.id, h.index) in files then files[(h.id, h.index)] else 0;
              && (unlocked <==> e.lockState == Unlocking && e.accessors == 1)
              && rows == old(rows)[i := Row(h.id, if unlocked then Entry(Unlocked, 0, size, e.streams, now)
                                                  else e.(accessors := e.accessors - 1, size := size))]
    {
      ReleaseKeeps(rows, handles, files, k, now);
      ReleasedIs(rows[Find(rows, handles[k].id)].entry, files, handles[k], now);
      hide Sorted, Agree, SumSizes, Exact, ReleasedEntry, Find, FileSize, WriterSize;
      var h := handles[k];
      var i := Find(rows, h.id);
      if i == |rows| {
        assert false;
      }
      var entry := rows[i].entry;
      var newSize := if entry.lockState.Unlocked? then 0 else FileSize(files, h.id, h.index);
      var closed := ReleasedEntry(entry, newSize, now);
      unlocked := entry.lockState.Unlocking? && closed.accessors == 0;
      DropHandle(k, i, closed, newSize);
    }

    /** The assignments of CloseHandle. */
    method DropHandle(k: nat, i: nat, e: Entry, size: nat)
      requires Valid() && k < |handles| && i < |rows|
      requires var after, fewer := rows[i := Row(rows[i].id, e)], handles[..k] + handles[k + 1..];
               Agree(after, fewer) && Sorted(after) && SumSizes(after) == totalSize + size
      modifies this`handles, this`totalSize, this`totalAccessors, this`rows
      ensures Valid() && handles == old(handles)[..k] + old(handles)[k + 1..]
      ensures rows == old(rows)[i := Row(old(rows)[i].id, e)]
    {
      hide Agree, Sorted, SumSizes;
      totalSize := totalSize + size;
      totalAccessors := totalAccessors - 1;
      handles := handles[..k] + handles[k + 1..];
      rows := rows[i := Row(rows[i].id, e)];
    }

    /** ReleaseResource closes an open stream; its entry is always found. A writer's file rejoins the entry's size, and
        the last writer of a resource that is being unlocked unlocks it and makes room. */
    method ReleaseResource(k: nat, now: int) returns (out: Outcome)
      requires Valid() && k < |handles|
      modifies this`files, this`handles, this`totalSize, this`totalAccessors, this`rows
      ensures Valid() && handles == old(handles)[..k] + old(handles)[k + 1..]
      ensures old(FilesMatch()) && reliable ==> FilesMatch()
      ensures var h := old(handles)[k];
              var i := Find(old(rows), h.id);
              && i < |old(rows)| && old(rows)[i].entry.accessors > 0
              && var e := old(rows)[i].entry;
                 var size := e.size + if h.writer && (h.id, h.index) in old(files) then old(files)[(h.id, h.index)]
                                      else 0;
                 var unlocks := e.lockState == Unlocking && e.accessors == 1;
                 var released := old(rows)[i := Row(h.id, if unlocks then Entry(Unlocked, 0, size, e.streams, now)
                                                          else e.(accessors := e.accessors - 1, size := size))];
              && out != Done(false)
              && (!unlocks ==> out == Done(true) && rows == released && files == old(files))
              && (unlocks ==> LeastRecentEvicted(released, rows))
              && (unlocks && reliable ==> rows == Evict(released, maxCache).rows)
              && (out == Undefined ==> unlocks && HasFinal(released) && Floor(released) > maxCache)
              && (unlocks && reliable && HasFinal(released) && Floor(released) > maxCache ==> out == Undefined)
    {
      hide Sorted, Agree, Exact, SumSizes, ReleasedEntry, Evict, HasFinal, Floor, LeastRecentEvicted;
      var unlocked := CloseHandle(k, now);
      if unlocked {
        out := CheckLimit();
        if out == Undefined {
          return;
        }
      }
      return Done(true);
    }

    /** Purge removes every file and entry, but leaves the total: the accounting holds afterwards exactly if the cache
        was empty of bytes before. */
    method Purge() returns (ok: bool)
      requires Valid()
      modifies this`rows, this`files
      ensures !ok ==> Valid() && rows == old(rows)
      ensures ok ==> rows == [] && totalSize == old(totalSize) && (Valid() <==> old(totalSize) == 0)
      ensures old(|handles|) > 0 ==> !ok
      ensures reliable ==> (ok <==> old(|handles|) == 0)
      ensures ok ==> files == map[]
      ensures files.Keys <= old(files).Keys && forall f | f in files :: files[f] == old(files)[f]
    {
      if totalAccessors > 0 {
        return false;
      }
      ok := *;
      ok := ok || reliable;
      var left: set<(string, nat)> := *;
      files := map f | f in files && f in left && !ok :: files[f];
      if ok {
        rows := [];
      }
    }
  }

  lemma {:induction false} HeldIsEntered(rows: seq<Row>, id: string, now: int, after: seq<Row>, i: nat)
    requires Entered(rows, id, now, after, i)
    ensures SumSizes(after) == SumSizes(rows)
    ensures forall r | r in rows :: r in after
  {
    if Find(rows, id) == |rows| {
      SumSizesInsert(rows, i, Row(id, NEW_ENTRY.(lastModified := now)));
      assert rows == rows[..i] + rows[i..];
    }
  }

  /** An entry that may not be evicted is not. */
  lemma {:induction false} HeldSurvives(before: seq<Row>, after: seq<Row>)
    requires LeastRecentEvicted(before, after)
    ensures HeldRemain(before, after)
  {
  }

  lemma {:induction false} HeldRemainLocked(before: seq<Row>, after: seq<Row>, i: nat, e: Entry)
    requires HeldRemain(before, after) && i < |after|
    ensures HeldRemain(before, after[i := Row(after[i].id, e)])
  {
    var locked := after[i := Row(after[i].id, e)];
    forall r | r in before && !Eligible(r.entry) ensures exists s | s in locked :: s.id == r.id {
      var s :| s in after && s.id == r.id;
      var k :| 0 <= k < |after| && after[k] == s;
      assert locked[k] in locked && locked[k].id == r.id;
    }
  }

  /** An entry that is still in the map after evictions is the entry it was. */
  lemma {:induction false} SurvivorIsUnchanged(before: seq<Row>, after: seq<Row>, id: string)
    requires Distinct(before) && LeastRecentEvicted(before, after) && Find(after, id) < |after|
    ensures Find(before, id) < |before| && after[Find(after, id)] == before[Find(before, id)]
  {
    var r := after[Find(after, id)];
    assert r in after && r in before;
    var k :| 0 <= k < |before| && before[k] == r;
    FindIs(before, k);
  }

  /** Erasing an entry together with its files. */
  lemma {:induction false} EraseSizes(rows: seq<Row>, handles: seq<Handle>, f: Files, g: Files, i: nat)
    requires Agree(rows, handles) && Exact(rows, handles, f) && i < |rows| && rows[i].entry.accessors == 0
    requires g.Keys <= f.Keys && forall x | x in g :: g[x] == f[x]
    requires forall x | x in f && x.0 != rows[i].id :: x in g
    requires forall x | x in g :: x.0 == rows[i].id ==> x.1 >= rows[i].entry.streams
    ensures Exact(rows[..i] + rows[i + 1..], handles, g)
  {
    var after := rows[..i] + rows[i + 1..];
    assert RowAgrees(rows[i], handles);
    NoneCounted(handles, rows[i].id);
    forall j | 0 <= j < |after| ensures SizeIsExact(after[j], handles, g) {
      var row := rows[if j < i then j else j + 1];
      assert after[j] == row && SizeIsExact(row, handles, f) && row.id != rows[i].id;
      SameClosedSize(f, g, handles, handles, row.id, row.entry.streams);
    }
    forall x | x in g ensures Known(after, x.0, x.1) {
      assert x in f && Known(rows, x.0, x.1);
      FindIs(rows, i);
      FindRemoved(rows, i, x.0);
    }
    forall k | 0 <= k < |handles| && handles[k].writer ensures Known(after, handles[k].id, handles[k].index) {
      assert handles[k] in handles && Known(rows, handles[k].id, handles[k].index);
      FindRemoved(rows, i, handles[k].id);
    }
  }

  /** A new entry has no files and no size. */
  lemma {:induction false} InsertSizes(rows: seq<Row>, handles: seq<Handle>, f: Files, p: nat, row: Row)
    requires Agree(rows, handles) && Exact(rows, handles, f) && p <= |rows| && Find(rows, row.id) == |rows|
    requires row.entry.size == 0 && row.entry.streams == 0
    ensures Exact(Inserted(rows, p, row), handles, f)
  {
    var after := Inserted(rows, p, row);
    InsertedRows(rows, p, row);
    hide Inserted;
    forall j | 0 <= j < |after| ensures SizeIsExact(after[j], handles, f) {
      var y := if j < p then j else j - 1;
      if j != p { assert after[j] == rows[y] && SizeIsExact(rows[y], handles, f); }
    }
    forall x | x in f ensures Known(after, x.0, x.1) {
      assert Known(rows, x.0, x.1);
      FindInserted(rows, p, row, x.0);
    }
    forall k | 0 <= k < |handles| && handles[k].writer ensures Known(after, handles[k].id, handles[k].index) {
      assert Known(rows, handles[k].id, handles[k].index);
      FindInserted(rows, p, row, handles[k].id);
    }
  }

  lemma {:induction false} KnownUpdated(rows: seq<Row>, i: nat, e: Entry, id: string, index: nat)
    requires i < |rows| && e.streams >= rows[i].entry.streams && Known(rows, id, index)
    ensures Known(rows[i := Row(rows[i].id, e)], id, index)
  {
    FindUpdated(rows, i, e, id);
  }

  lemma {:induction false} UpdateSizes(rows: seq<Row>, handles: seq<Handle>, f: Files, i: nat, e: Entry)
    requires Exact(rows, handles, f) && i < |rows|
    requires e.size == rows[i].entry.size && e.streams == rows[i].entry.streams
    ensures Exact(rows[i := Row(rows[i].id, e)], handles, f)
  {
    var after := rows[i := Row(rows[i].id, e)];
    forall j | 0 <= j < |after| ensures SizeIsExact(after[j], handles, f) {
      assert SizeIsExact(rows[j], handles, f);
    }
    forall x | x in f ensures Known(after, x.0, x.1) {
      KnownUpdated(rows, i, e, x.0, x.1);
    }
    forall k | 0 <= k < |handles| && handles[k].writer ensures Known(after, handles[k].id, handles[k].index) {
      KnownUpdated(rows, i, e, handles[k].id, handles[k].index);
    }
  }

  /** The old size of a file that is opened for writing fits into its entry's size. */
  lemma {:induction false} PreviousFits(rows: seq<Row>, handles: seq<Handle>, f: Files, i: nat, index: nat)
    requires Distinct(rows) && Exact(rows, handles, f) && i < |rows|
    requires Handle(rows[i].id, index, true) !in handles
    ensures var e, id := rows[i].entry, rows[i].id;
            && FileSize(f, id, index) <= e.size
            && SizeIsExact(Row(id, WrittenEntry(e, index, FileSize(f, id, index))),
                           handles + [Handle(id, index, true)], f[(id, index) := 0])
  {
    var entry, id := rows[i].entry, rows[i].id;
    FindIs(rows, i);
    assert SizeIsExact(rows[i], handles, f);
    assert forall x | x in f && x.0 == id :: Known(rows, x.0, x.1) && x.1 < entry.streams;
    hide ClosedSize, Closed;
    WriteSizes(f, handles, id, index, entry.streams);
  }

  lemma {:induction false} OtherSizesUnchanged(row: Row, handles: seq<Handle>, f: Files, h: Handle)
    requires SizeIsExact(row, handles, f) && row.id != h.id
    ensures SizeIsExact(row, handles + [h], f[(h.id, h.index) := 0])
  {
    SameClosedSize(f, f[(h.id, h.index) := 0], handles, handles + [h], row.id, row.entry.streams);
  }

  lemma {:induction false} WriteKeepsKnown(rows: seq<Row>, handles: seq<Handle>, f: Files, i: nat, e: Entry, index: nat)
    requires Distinct(rows) && Exact(rows, handles, f) && i < |rows|
    requires e.streams >= rows[i].entry.streams && index < e.streams
    ensures var h := Handle(rows[i].id, index, true);
            var after, more, g := rows[i := Row(rows[i].id, e)], handles + [h], f[(h.id, index) := 0];
            && (forall x | x in g :: Known(after, x.0, x.1))
            && (forall k | 0 <= k < |more| :: more[k].writer ==> Known(after, more[k].id, more[k].index))
  {
    var id, h := rows[i].id, Handle(rows[i].id, index, true);
    var after, more, g := rows[i := Row(id, e)], handles + [h], f[(id, index) := 0];
    FindIs(rows, i);
    FindUpdated(rows, i, e, id);
    assert Known(after, id, index);
    hide Find;
    forall x | x in g ensures Known(after, x.0, x.1) {
      if x != (id, index) {
        assert x in f && Known(rows, x.0, x.1);
        KnownUpdated(rows, i, e, x.0, x.1);
      }
    }
    forall k | 0 <= k < |more| && more[k].writer ensures Known(after, more[k].id, more[k].index) {
      if k < |handles| {
        assert Known(rows, handles[k].id, handles[k].index);
        KnownUpdated(rows, i, e, handles[k].id, handles[k].index);
      }
    }
  }

  lemma {:induction false} WriteKeepsSizes(rows: seq<Row>, handles: seq<Handle>, f: Files, i: nat, index: nat)
    requires Distinct(rows) && Exact(rows, handles, f) && i < |rows|
    requires Handle(rows[i].id, index, true) !in handles
    ensures var e, id := rows[i].entry, rows[i].id;
            && FileSize(f, id, index) <= e.size
            && Exact(rows[i := Row(id, WrittenEntry(e, index, FileSize(f, id, index)))],
                     handles + [Handle(id, index, true)], f[(id, index) := 0])
  {
    var id, h := rows[i].id, Handle(rows[i].id, index, true);
    PreviousFits(rows, handles, f, i, index);
    var e := WrittenEntry(rows[i].entry, index, FileSize(f, id, index));
    WriteKeepsKnown(rows, handles, f, i, e, index);
    hide SizeIsExact, Known, Find;
    var after := rows[i := Row(id, e)];
    forall j | 0 <= j < |after| ensures SizeIsExact(after[j], handles + [h], f[(id, index) := 0]) {
      if j != i { OtherSizesUnchanged(rows[j], handles, f, h); }
    }
  }

  lemma {:induction false} ReadKeepsSizes(rows: seq<Row>, handles: seq<Handle>, f: Files, i: nat, e: Entry, h: Handle)
    requires Exact(rows, handles, f) && i < |rows| && !h.writer
    requires e.size == rows[i].entry.size && e.streams == rows[i].entry.streams
    ensures Exact(rows[i := Row(rows[i].id, e)], handles + [h], f)
  {
    UpdateSizes(rows, handles, f, i, e);
    var after, more := rows[i := Row(rows[i].id, e)], handles + [h];
    forall j | 0 <= j < |after| ensures SizeIsExact(after[j], more, f) {
      assert SizeIsExact(after[j], handles, f);
      SameClosedSize(f, f, handles, more, after[j].id, after[j].entry.streams);
    }
  }

  lemma {:induction false} OpenFileMayChange(rows: seq<Row>, handles: seq<Handle>, f: Files, k: nat, size: nat)
    requires Exact(rows, handles, f) && k < |handles| && handles[k].writer
    ensures Exact(rows, handles, f[(handles[k].id, handles[k].index) := size])
  {
    var g := f[(handles[k].id, handles[k].index) := size];
    forall j | 0 <= j < |rows| ensures SizeIsExact(rows[j], handles, g) {
      assert SizeIsExact(rows[j], handles, f);
      SameClosedSize(f, g, handles, handles, rows[j].id, rows[j].entry.streams);
    }
    assert Known(rows, handles[k].id, handles[k].index);
  }

  lemma {:induction false} RemovedHandles(handles: seq<Handle>, k: nat)
    requires k < |handles|
    ensures var fewer := handles[..k] + handles[k + 1..];
            |fewer| == |handles| - 1
            && (forall m | 0 <= m < |fewer| :: fewer[m] == handles[if m < k then m else m + 1])
            && (forall h | h in handles :: h in fewer || h == handles[k])
            && (forall h | h in fewer :: h in handles)
  {
    assert handles == handles[..k] + [handles[k]] + handles[k + 1..];
  }

  lemma {:induction false} ReleaseKeepsSizes(rows: seq<Row>, handles: seq<Handle>, f: Files, k: nat, e: Entry)
    requires Agree(rows, handles) && Exact(rows, handles, f) && k < |handles|
    requires var h, i := handles[k], Find(rows, handles[k].id);
             i < |rows| && e.streams == rows[i].entry.streams
             && e.size == rows[i].entry.size
                          + if h.writer then FileSize(f, h.id, h.index) else 0
    ensures Exact(rows[Find(rows, handles[k].id) := Row(rows[Find(rows, handles[k].id)].id, e)],
                  handles[..k] + handles[k + 1..], f)
  {
    var h, i := handles[k], Find(rows, handles[k].id);
    var after, fewer := rows[i := Row(rows[i].id, e)], handles[..k] + handles[k + 1..];
    RemovedHandles(handles, k);
    assert h.writer ==> h !in fewer;
    forall j | 0 <= j < |after| ensures SizeIsExact(after[j], fewer, f) {
      assert SizeIsExact(rows[j], handles, f);
      if j == i && h.writer {
        assert Known(rows, h.id, h.index);
        OneClosedSize(f, f, handles, fewer, h.id, e.streams, h.index);
      } else {
        SameClosedSize(f, f, handles, fewer, rows[j].id, rows[j].entry.streams);
      }
    }
    forall x | x in f ensures Known(after, x.0, x.1) {
      KnownUpdated(rows, i, e, x.0, x.1);
    }
    forall m | 0 <= m < |fewer| && fewer[m].writer ensures Known(after, fewer[m].id, fewer[m].index) {
      var n := if m < k then m else m + 1;
      KnownUpdated(rows, i, e, handles[n].id, handles[n].index);
    }
  }

  /** What closing a stream does to the map keeps the accounting. */
  lemma {:induction false} ReleaseKeeps(rows: seq<Row>, handles: seq<Handle>, f: Files, k: nat, now: int)
    requires Agree(rows, handles) && k < |handles|
    ensures var h, i := handles[k], Find(rows, handles[k].id);
            && i < |rows| && rows[i].id == h.id && rows[i].entry.accessors > 0
            && (h.writer <==> !rows[i].entry.lockState.Unlocked?)
            && var closed := ReleasedEntry(rows[i].entry, WriterSize(f, h), now);
               var after, fewer := rows[i := Row(h.id, closed)], handles[..k] + handles[k + 1..];
            && Agree(after, fewer) && SumSizes(after) == SumSizes(rows) + WriterSize(f, h)
            && (Exact(rows, handles, f) ==> Exact(after, fewer, f))
            && (Sorted(rows) ==> Sorted(after))
  {
    hide Agree, SumSizes, Exact, Find, FileSize, Sorted;
    OpenHandleIsKnown(rows, handles, k);
    var h, i := handles[k], Find(rows, handles[k].id);
    var closed := ReleasedEntry(rows[i].entry, WriterSize(f, h), now);
    CloseKeeps(rows, handles, k, closed);
    SumSizesUpdate(rows, i, closed);
    if Sorted(rows) {
      SortedUpdate(rows, i, closed);
    }
    if Exact(rows, handles, f) {
      ReleaseKeepsSizes(rows, handles, f, k, closed);
    }
  }
}
