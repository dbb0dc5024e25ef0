/** A database collection: rows with distinct ids, kept in insertion order, which is the
    order in which an unsorted `find` or a `findOne` meets them. */
module Table {
  import opened Wrappers

  datatype Row<T> = Row(id: nat, rec: T)

  type Table<T> = seq<Row<T>>

  /** Collection invariant: no two rows share an id. */
  predicate UniqueIds<T>(t: Table<T>) {
    forall i, j :: 0 <= i < j < |t| ==> t[i].id != t[j].id
  }

  function Ids<T>(t: Table<T>): set<nat> {
    set i | 0 <= i < |t| :: t[i].id
  }

  /** `findById`: the record stored under `id`. */
  function Find<T>(t: Table<T>, id: nat): (r: Option<T>)
    ensures r.None? <==> id !in Ids(t)
    ensures r.Some? ==> Row(id, r.value) in t
    decreases |t|
  {
    if |t| == 0 then None
    else if t[0].id == id then Some(t[0].rec)
    else
      assert Ids(t) == {t[0].id} + Ids(t[1..]) by {
        assert forall i :: 0 < i < |t| ==> t[i] == t[1..][i - 1];
      }
      Find(t[1..], id)
  }

  /** With distinct ids, the row found is the only one under that id. */
  lemma FindUnique<T>(t: Table<T>, id: nat, rec: T)
    requires UniqueIds(t) && Row(id, rec) in t
    ensures Find(t, id) == Some(rec)
  {
    var k :| 0 <= k < |t| && t[k] == Row(id, rec);
    var r := Find(t, id);
    assert Row(id, r.value) in t;
  }

  /** `findOne(filter)`: the first row, in insertion order, that satisfies `p`. */
  function FindFirst<T>(t: Table<T>, p: T -> bool): (r: Option<Row<T>>)
    ensures r.None? <==> forall i :: 0 <= i < |t| ==> !p(t[i].rec)
    ensures r.Some? ==> exists k :: 0 <= k < |t| && t[k] == r.value && p(r.value.rec)
                                     && forall j :: 0 <= j < k ==> !p(t[j].rec)
    decreases |t|
  {
    if |t| == 0 then None
    else if p(t[0].rec) then Some(t[0])
    else
      var r := FindFirst(t[1..], p);
      assert forall i :: 0 < i < |t| ==> t[i] == t[1..][i - 1];
      assert r.Some? ==> exists k :: 0 <= k < |t| && t[k] == r.value && p(r.value.rec)
                                       && forall j :: 0 <= j < k ==> !p(t[j].rec) by {
        if r.Some? {
          var k :| 0 <= k < |t[1..]| && t[1..][k] == r.value && p(r.value.rec)
                   && forall j :: 0 <= j < k ==> !p(t[1..][j].rec);
          assert t[k + 1] == r.value;
        }
      }
      r
  }

  /** When nothing in `t` satisfies `p`, an appended row that does is the one found. */
  lemma FindFirstAppend<T>(t: Table<T>, row: Row<T>, p: T -> bool)
    requires forall i :: 0 <= i < |t| ==> !p(t[i].rec)
    requires p(row.rec)
    ensures FindFirst(t + [row], p) == Some(row)
  {
    var u := t + [row];
    assert u[|t|] == row;
    assert forall i :: 0 <= i < |t| ==> u[i] == t[i];
  }

  /** A fresh id: larger than every id in use. */
  function NextId<T>(t: Table<T>): (r: nat)
    ensures forall i :: 0 <= i < |t| ==> t[i].id < r
    decreases |t|
  {
    if |t| == 0 then 0
    else
      var rest := NextId(t[1..]);
      assert forall i :: 0 < i < |t| ==> t[i] == t[1..][i - 1];
      if t[0].id + 1 > rest then t[0].id + 1 else rest
  }

  /** The fresh id is not in use. */
  lemma NextIdFresh<T>(t: Table<T>)
    ensures NextId(t) !in Ids(t)
  {
  }

  /** `Model.create(rec)`: appends a row under a fresh id. */
  function Insert<T>(t: Table<T>, rec: T): (r: Table<T>)
    ensures r == t + [Row(NextId(t), rec)]
    ensures UniqueIds(t) ==> UniqueIds(r)
  {
    var r := t + [Row(NextId(t), rec)];
    assert forall i :: 0 <= i < |t| ==> r[i] == t[i];
    assert r[|t|].id == NextId(t);
    r
  }

  /** Creation adds exactly the fresh id. */
  lemma InsertIds<T>(t: Table<T>, rec: T)
    ensures Ids(Insert(t, rec)) == Ids(t) + {NextId(t)}
    ensures NextId(t) !in Ids(t)
  {
    var r := Insert(t, rec);
    assert forall i :: 0 <= i < |t| ==> r[i] == t[i];
    assert r[|t|].id == NextId(t);
  }

  /** `findByIdAndDelete`: drops the row under `id`, keeping the others in order. */
  function Remove<T(==,!new)>(t: Table<T>, id: nat): (r: Table<T>)
    ensures forall row :: row in r <==> row in t && row.id != id
    ensures |r| <= |t|
    ensures id !in Ids(t) ==> r == t
    decreases |t|
  {
    if |t| == 0 then []
    else
      var rest := Remove(t[1..], id);
      assert t == [t[0]] + t[1..];
      if t[0].id == id then rest
      else
        assert id !in Ids(t) ==> id !in Ids(t[1..]) by {
          assert forall i :: 0 < i < |t| ==> t[i] == t[1..][i - 1];
        }
        [t[0]] + rest
  }

  lemma IdsCons<T>(row: Row<T>, t: Table<T>)
    ensures Ids([row] + t) == {row.id} + Ids(t)
  {
    var r := [row] + t;
    forall x | x in Ids(t) ensures x in Ids(r) {
      var i :| 0 <= i < |t| && t[i].id == x;
      assert r[i + 1].id == x;
    }
    forall x | x in Ids(r) ensures x == row.id || x in Ids(t) {
      var i :| 0 <= i < |r| && r[i].id == x;
      if i > 0 {
        assert t[i - 1].id == x;
      }
    }
    assert r[0].id == row.id;
  }

  lemma UniqueCons<T>(row: Row<T>, t: Table<T>)
    requires UniqueIds(t) && row.id !in Ids(t)
    ensures UniqueIds([row] + t)
  {
    var r := [row] + t;
    forall i, j | 0 <= i < j < |r| ensures r[i].id != r[j].id {
      assert r[j] == t[j - 1];
      if i > 0 {
        assert r[i] == t[i - 1];
      }
    }
  }

  lemma UniqueTail<T>(t: Table<T>)
    requires |t| > 0 && UniqueIds(t)
    ensures UniqueIds(t[1..]) && t[0].id !in Ids(t[1..]) && t == [t[0]] + t[1..]
  {
    assert forall i :: 0 < i < |t| ==> t[i] == t[1..][i - 1];
  }

  /** What removal does to the ids: `id` is gone, the others stay, and they remain distinct. */
  lemma {:induction false} RemoveIds<T(!new)>(t: Table<T>, id: nat)
    requires UniqueIds(t)
    ensures Ids(Remove(t, id)) == Ids(t) - {id}
    ensures UniqueIds(Remove(t, id))
    decreases |t|
  {
    if |t| > 0 {
      UniqueTail(t);
      IdsCons(t[0], t[1..]);
      RemoveIds(t[1..], id);
      if t[0].id != id {
        IdsCons(t[0], Remove(t[1..], id));
        UniqueCons(t[0], Remove(t[1..], id));
      }
    }
  }

  /** Removing an id in use removes exactly one row. */
  lemma {:induction false} RemoveLength<T(!new)>(t: Table<T>, id: nat)
    requires UniqueIds(t) && id in Ids(t)
    ensures |Remove(t, id)| == |t| - 1
    decreases |t|
  {
    UniqueTail(t);
    IdsCons(t[0], t[1..]);
    if t[0].id != id {
      RemoveLength(t[1..], id);
    } else {
      assert Remove(t[1..], id) == t[1..];
    }
  }

  /** `findByIdAndUpdate(id, change)`: applies `f` to the record under `id`; every other
      row, the order and the ids stay as they were. */
  function Update<T>(t: Table<T>, id: nat, f: T -> T): (r: Table<T>)
    ensures |r| == |t|
    ensures forall i :: 0 <= i < |t| ==> r[i].id == t[i].id
    ensures forall i :: 0 <= i < |t| && t[i].id != id ==> r[i] == t[i]
    ensures forall i :: 0 <= i < |t| && t[i].id == id ==> r[i].rec == f(t[i].rec)
    ensures Ids(r) == Ids(t)
    ensures UniqueIds(t) ==> UniqueIds(r)
  {
    var r := seq(|t|, i requires 0 <= i < |t| => if t[i].id == id then Row(id, f(t[i].rec)) else t[i]);
    assert Ids(r) == Ids(t) by {
      assert forall i :: 0 <= i < |t| ==> r[i].id == t[i].id;
    }
    r
  }

  /** Looking up after an update. */
  lemma FindAfterUpdate<T>(t: Table<T>, id: nat, f: T -> T, other: nat)
    requires UniqueIds(t)
    ensures Find(Update(t, id, f), other) ==
      if other == id && Find(t, id).Some? then Some(f(Find(t, id).value)) else Find(t, other)
  {
    var r := Update(t, id, f);
    var found := Find(r, other);
    if found.Some? {
      var k :| 0 <= k < |r| && r[k] == Row(other, found.value);
      FindUnique(t, other, t[k].rec);
    } else {
      assert other !in Ids(t);
    }
  }

  /** The records, in insertion order. */
  function Records<T>(t: Table<T>): (r: seq<T>)
    ensures |r| == |t| && forall i :: 0 <= i < |t| ==> r[i] == t[i].rec
  {
    seq(|t|, i requires 0 <= i < |t| => t[i].rec)
  }
}
