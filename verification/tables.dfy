/** A database table as an immutable map from row id to row.

    Every row id is below the table's `next` counter, so `Insert` always picks an id no row has:
    this stands in for the database's generated ids (uuid defaults), which never collide. */
module Tables {
  import opened Wrappers

  datatype RawTable<T> = RawTable(rows: map<nat, T>, next: nat)

  type Table<T> = t: RawTable<T> | forall k :: k in t.rows ==> k < t.next
    witness RawTable(map[], 0)

  /** `create`: adds a row under a fresh id and returns the id. */
  function Insert<T>(t: Table<T>, v: T): (r: (Table<T>, nat))
    ensures r.1 !in t.rows
    ensures r.0.rows == t.rows[r.1 := v]
    ensures forall k :: k in t.rows ==> k < r.1
  {
    (RawTable(t.rows[t.next := v], t.next + 1), t.next)
  }

  /** `update` of an existing row. */
  function Put<T>(t: Table<T>, k: nat, v: T): (r: Table<T>)
    requires k in t.rows
    ensures r.rows == t.rows[k := v]
    ensures r.rows.Keys == t.rows.Keys
  {
    RawTable(t.rows[k := v], t.next)
  }

  /** `deleteMany` of every row satisfying `p`. */
  function DeleteWhere<T>(t: Table<T>, p: T -> bool): (r: Table<T>)
    ensures forall k :: k in r.rows <==> k in t.rows && !p(t.rows[k])
    ensures forall k :: k in r.rows ==> r.rows[k] == t.rows[k]
  {
    RawTable(map k | k in t.rows && !p(t.rows[k]) :: t.rows[k], t.next)
  }

  /** The ids of rows satisfying `p`: the rows a `where` clause selects. */
  function Where<T>(t: Table<T>, p: T -> bool): (r: set<nat>)
    ensures forall k :: k in r <==> k in t.rows && p(t.rows[k])
  {
    set k | k in t.rows && p(t.rows[k])
  }

  function FindFrom<T>(rows: map<nat, T>, p: T -> bool, i: nat, n: nat): (r: Option<nat>)
    decreases n - i
    ensures r.Some? ==> i <= r.value < n && r.value in rows && p(rows[r.value])
    ensures r.Some? ==> forall k :: i <= k < r.value && k in rows ==> !p(rows[k])
    ensures r.None? ==> forall k :: i <= k < n && k in rows ==> !p(rows[k])
  {
    if i >= n then None
    else if i in rows && p(rows[i]) then Some(i)
    else FindFrom(rows, p, i + 1, n)
  }

  /** `findFirst`: the lowest id whose row satisfies `p`, if any row does. */
  function Find<T>(t: Table<T>, p: T -> bool): (r: Option<nat>)
    ensures r.Some? ==> r.value in t.rows && p(t.rows[r.value])
    ensures r.Some? ==> forall k :: k in t.rows && k < r.value ==> !p(t.rows[k])
    ensures r.None? <==> forall k :: k in t.rows ==> !p(t.rows[k])
  {
    FindFrom(t.rows, p, 0, t.next)
  }

  function IdsBelow<T>(rows: map<nat, T>, n: nat): (r: seq<nat>)
    ensures forall k :: k in r <==> k in rows && k < n
    ensures forall i, j :: 0 <= i < j < |r| ==> r[i] < r[j]
  {
    if n == 0 then []
    else
      var pre := IdsBelow(rows, n - 1);
      assert forall i :: 0 <= i < |pre| ==> pre[i] in pre;
      pre + (if n - 1 in rows then [n - 1] else [])
  }

  /** Every row id in ascending order: a full scan of the table. */
  function Ids<T>(t: Table<T>): (r: seq<nat>)
    ensures forall k :: k in r <==> k in t.rows
    ensures forall i, j :: 0 <= i < j < |r| ==> r[i] < r[j]
  {
    IdsBelow(t.rows, t.next)
  }

  lemma {:induction false} IdsBelowAgree<T>(a: map<nat, T>, b: map<nat, T>, n: nat)
    requires forall k :: k < n ==> (k in a <==> k in b)
    ensures IdsBelow(a, n) == IdsBelow(b, n)
  {
    if n > 0 {
      IdsBelowAgree(a, b, n - 1);
    }
  }

  /** A newly inserted row is scanned last. */
  lemma InsertScansLast<T>(t: Table<T>, v: T)
    ensures Ids(Insert(t, v).0) == Ids(t) + [Insert(t, v).1]
  {
    var (t', id) := Insert(t, v);
    IdsBelowAgree(t'.rows, t.rows, t.next);
  }

  /** `Find` depends only on which rows satisfy the predicate. */
  lemma FindSameKeys<T>(a: Table<T>, b: Table<T>, p: T -> bool)
    requires a.rows.Keys == b.rows.Keys && a.next == b.next
    requires forall k :: k in a.rows ==> p(a.rows[k]) == p(b.rows[k])
    ensures Find(a, p) == Find(b, p)
  {
    FindFromSameKeys(a.rows, b.rows, p, 0, a.next);
  }

  lemma {:induction false} FindFromSameKeys<T>(a: map<nat, T>, b: map<nat, T>, p: T -> bool, i: nat, n: nat)
    requires a.Keys == b.Keys
    requires forall k :: k in a ==> p(a[k]) == p(b[k])
    ensures FindFrom(a, p, i, n) == FindFrom(b, p, i, n)
    decreases n - i
  {
    if i < n {
      FindFromSameKeys(a, b, p, i + 1, n);
    }
  }

  /** When exactly one row matches, `findFirst` returns it. */
  lemma FindOnlyMatch<T>(t: Table<T>, p: T -> bool, id: nat)
    requires id in t.rows && p(t.rows[id])
    requires forall k :: k in t.rows && k != id ==> !p(t.rows[k])
    ensures Find(t, p) == Some(id)
  {
  }
}
