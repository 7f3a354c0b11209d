/**
 * The generic data-access object (app/base_dao.py) over the `users` table,
 * held in memory: a map from primary key to row and the next value of the
 * key sequence. Every public operation of BaseDAO catches any exception,
 * logs it and returns None; here a statement the database would refuse
 * (a value of the wrong type, a missing NOT NULL column, an empty SET
 * list) is such a failure, and changes nothing. Logging is not modelled.
 */
module BaseDao {
  import opened Wrappers
  import opened Models

  predicate Increasing(s: seq<nat>)
  {
    forall i, j :: 0 <= i < j < |s| ==> s[i] < s[j]
  }

  /** Every row is stored under its own id. */
  predicate KeyedById(rows: map<nat, Account>)
  {
    forall k :: k in rows ==> rows[k].id == k
  }

  /** `m` is the largest element of `keys`. */
  predicate IsMax(m: nat, keys: set<nat>)
  {
    m in keys && forall k :: k in keys ==> k <= m
  }

  lemma {:induction false} MaxExists(keys: set<nat>)
    requires keys != {}
    ensures exists m :: IsMax(m, keys)
    decreases |keys|
  {
    var x :| x in keys;
    var rest := keys - {x};
    if rest == {} {
      forall k | k in keys ensures k <= x {
        assert k !in rest;
      }
      assert IsMax(x, keys);
    } else {
      MaxExists(rest);
      var m :| IsMax(m, rest);
      var top := if x > m then x else m;
      forall k | k in keys ensures k <= top {
        if k != x {
          assert k in rest;
        }
      }
      assert IsMax(top, keys);
    }
  }

  function MaxKey(keys: set<nat>): (m: nat)
    requires keys != {}
    ensures IsMax(m, keys)
  {
    MaxExists(keys);
    var m :| IsMax(m, keys);
    m
  }

  /** The keys in ascending order: the order rows come back from a scan (see the note on order). */
  function SortedIds(keys: set<nat>): (ids: seq<nat>)
    ensures Increasing(ids)
    ensures forall k :: k in ids <==> k in keys
    decreases |keys|
  {
    if keys == {} then []
    else
      var m := MaxKey(keys);
      SortedIds(keys - {m}) + [m]
  }

  lemma AppendIncreasing(s: seq<nat>, x: nat)
    requires Increasing(s)
    requires forall k :: k in s ==> k < x
    ensures Increasing(s + [x])
  {
    forall i, j | 0 <= i < j < |s + [x]| ensures (s + [x])[i] < (s + [x])[j] {
      if j == |s| {
        assert s[i] in s;
      }
    }
  }

  /** The ids among `ids` whose rows satisfy the filter, in the same order. */
  function Pick(rows: map<nat, Account>, ids: seq<nat>, filter: map<Column, Value>): (r: seq<nat>)
    ensures forall k :: k in r <==> k in ids && k in rows && Matches(rows[k], filter)
    ensures Increasing(ids) ==> Increasing(r)
  {
    if ids == [] then []
    else
      var init := ids[..|ids| - 1];
      var rest := Pick(rows, init, filter);
      var last := ids[|ids| - 1];
      assert forall k :: k in init ==> k in ids;
      assert forall k :: k in ids ==> k in init || k == last;
      if last in rows && Matches(rows[last], filter) then
        assert Increasing(ids) ==> Increasing(rest + [last]) by {
          if Increasing(ids) {
            forall k | k in rest ensures k < last {
              var i :| 0 <= i < |init| && init[i] == k;
            }
            AppendIncreasing(rest, last);
          }
        }
        rest + [last]
      else rest
  }

  /** The keys of the rows that satisfy a filter. */
  function MatchIds(rows: map<nat, Account>, filter: map<Column, Value>): set<nat>
  {
    set k | k in rows && Matches(rows[k], filter)
  }

  /** The elements of a sequence, as a set. */
  function Elems(s: seq<nat>): set<nat>
  {
    set x | x in s
  }

  lemma ElemsSnoc(init: seq<nat>, x: nat)
    ensures Elems(init + [x]) == Elems(init) + {x}
  {
    forall k | k in Elems(init + [x]) ensures k in Elems(init) + {x} {
      var i :| 0 <= i < |init + [x]| && (init + [x])[i] == k;
      if i < |init| {
        assert init[i] == k;
      }
    }
    forall k | k in Elems(init) + {x} ensures k in Elems(init + [x]) {
      if k != x {
        var i :| 0 <= i < |init| && init[i] == k;
        assert (init + [x])[i] == k;
      } else {
        assert (init + [x])[|init|] == k;
      }
    }
  }

  lemma {:induction false} IncreasingCard(s: seq<nat>)
    requires Increasing(s)
    ensures |Elems(s)| == |s|
  {
    if s != [] {
      var init := s[..|s| - 1];
      var last := s[|s| - 1];
      assert s == init + [last];
      IncreasingCard(init);
      ElemsSnoc(init, last);
    }
  }

  /** The keys of the matching rows, ascending, each once. */
  function SelectIds(rows: map<nat, Account>, filter: map<Column, Value>): (ids: seq<nat>)
    ensures Increasing(ids)
    ensures forall k :: k in ids <==> k in MatchIds(rows, filter)
    ensures |ids| == |MatchIds(rows, filter)|
  {
    var ids := Pick(rows, SortedIds(rows.Keys), filter);
    IncreasingCard(ids);
    assert Elems(ids) == MatchIds(rows, filter);
    ids
  }

  /** The rows stored under `ids`, in that order. */
  function RowsAt(rows: map<nat, Account>, ids: seq<nat>): (r: seq<Account>)
    requires forall k :: k in ids ==> k in rows
    ensures |r| == |ids|
    ensures forall i :: 0 <= i < |ids| ==> ids[i] in rows && r[i] == rows[ids[i]]
  {
    if ids == [] then []
    else
      assert ids[0] in ids;
      assert forall k :: k in ids[1..] ==> k in ids;
      [rows[ids[0]]] + RowsAt(rows, ids[1..])
  }

  /** `find_all(**filter)`: every matching row, each once, in id order. */
  function Select(rows: map<nat, Account>, filter: map<Column, Value>): (r: seq<Account>)
    ensures |r| == |MatchIds(rows, filter)|
    ensures forall i :: 0 <= i < |r| ==> r[i] in rows.Values && Matches(r[i], filter)
    ensures forall k :: k in MatchIds(rows, filter) ==> rows[k] in r
    ensures KeyedById(rows) ==> forall i, j :: 0 <= i < j < |r| ==> r[i].id < r[j].id
  {
    var ids := SelectIds(rows, filter);
    var r := RowsAt(rows, ids);
    SelectFacts(rows, filter, ids, r);
    r
  }

  lemma SelectFacts(rows: map<nat, Account>, filter: map<Column, Value>, ids: seq<nat>, r: seq<Account>)
    requires Increasing(ids)
    requires forall k :: k in ids <==> k in MatchIds(rows, filter)
    requires |r| == |ids|
    requires forall i :: 0 <= i < |ids| ==> ids[i] in rows && r[i] == rows[ids[i]]
    ensures forall i :: 0 <= i < |r| ==> r[i] in rows.Values && Matches(r[i], filter)
    ensures forall k :: k in MatchIds(rows, filter) ==> rows[k] in r
    ensures KeyedById(rows) ==> forall i, j :: 0 <= i < j < |r| ==> r[i].id < r[j].id
  {
    forall i | 0 <= i < |r| ensures r[i] in rows.Values && Matches(r[i], filter) {
      assert ids[i] in ids;
    }
    forall k | k in MatchIds(rows, filter) ensures rows[k] in r {
      var i :| 0 <= i < |ids| && ids[i] == k;
      assert r[i] == rows[k];
    }
  }

  /** A sequence without repeats whose elements are exactly `s`, of length one, is `s`'s one element. */
  lemma SingleId(ids: seq<nat>, s: set<nat>)
    requires |ids| == 1
    requires forall k :: k in ids <==> k in s
    ensures s == {ids[0]}
  {
    assert ids == [ids[0]];
    forall k | k in s ensures k == ids[0] {
      assert k in ids;
    }
  }

  /** `find_obj(**filter)`: the first matching row, the one with the lowest id. */
  function FindFirst(rows: map<nat, Account>, filter: map<Column, Value>): (r: Option<Account>)
    ensures r.None? <==> MatchIds(rows, filter) == {}
    ensures r.Some? ==> exists k :: k in MatchIds(rows, filter) && rows[k] == r.value
                                    && forall j :: j in MatchIds(rows, filter) ==> k <= j
  {
    var ids := SelectIds(rows, filter);
    if ids == [] then None
    else
      assert ids[0] in ids;
      assert forall j :: j in MatchIds(rows, filter) ==> ids[0] <= j by {
        forall j | j in MatchIds(rows, filter) ensures ids[0] <= j {
          var i :| 0 <= i < |ids| && ids[i] == j;
          assert i == 0 || ids[0] < ids[i];
        }
      }
      Some(rows[ids[0]])
  }

  /**
   * `find_one_or_none(**filter)`: the matching row when there is exactly one;
   * None when there is none, and also when there are several (the
   * MultipleResultsFound error is caught).
   */
  function FindUnique(rows: map<nat, Account>, filter: map<Column, Value>): (r: Option<Account>)
    ensures r.Some? <==> |MatchIds(rows, filter)| == 1
    ensures r.Some? ==> exists k :: MatchIds(rows, filter) == {k} && rows[k] == r.value
  {
    var ids := SelectIds(rows, filter);
    if |ids| == 1 then
      SingleId(ids, MatchIds(rows, filter));
      assert ids[0] in ids;
      Some(rows[ids[0]])
    else None
  }

  /** The rows after `UPDATE ... SET fields WHERE filter`: matching rows get the new values. */
  function UpdateWhere(rows: map<nat, Account>, filter: map<Column, Value>, fields: map<Column, Value>): (r: map<nat, Account>)
    requires Writable(fields)
    ensures r.Keys == rows.Keys
    ensures forall k :: k in rows ==> r[k].id == rows[k].id
    ensures forall k, c :: k in rows ==>
      Get(r[k], c) == if Matches(rows[k], filter) && c in fields then fields[c] else Get(rows[k], c)
  {
    map k | k in rows :: if Matches(rows[k], filter) then Assign(rows[k], fields) else rows[k]
  }

  /** Inserting a row under a fresh key adds that key to the matches exactly when the row matches. */
  lemma InsertMatchIds(rows: map<nat, Account>, id: nat, a: Account, filter: map<Column, Value>)
    requires id !in rows
    ensures MatchIds(rows[id := a], filter)
         == MatchIds(rows, filter) + (if Matches(a, filter) then {id} else {})
  {
  }

  /** When one row matches, `find_one_or_none` and `find_obj` agree. */
  lemma FindUniqueIsFirst(rows: map<nat, Account>, filter: map<Column, Value>)
    requires FindUnique(rows, filter).Some?
    ensures FindFirst(rows, filter) == FindUnique(rows, filter)
  {
    var a := FindUnique(rows, filter).value;
    var k :| MatchIds(rows, filter) == {k} && rows[k] == a;
    var k' :| k' in MatchIds(rows, filter) && rows[k'] == FindFirst(rows, filter).value
              && forall j :: j in MatchIds(rows, filter) ==> k' <= j;
    assert k' == k;
  }

  /** `find_obj` is the head of what `find_all` returns. */
  lemma FindFirstIsHead(rows: map<nat, Account>, filter: map<Column, Value>)
    ensures FindFirst(rows, filter) == if Select(rows, filter) == [] then None else Some(Select(rows, filter)[0])
  {
    var ids := SelectIds(rows, filter);
    if ids != [] {
      var first := ids[0];
      assert first in ids;
    }
  }

  /** The row `find_one_or_none` returns is stored under its own id, and only that id matches. */
  lemma FindUniqueKey(rows: map<nat, Account>, filter: map<Column, Value>)
    requires KeyedById(rows)
    requires FindUnique(rows, filter).Some?
    ensures var a := FindUnique(rows, filter).value;
      a.id >= 0 && a.id in rows && rows[a.id] == a && MatchIds(rows, filter) == {a.id}
  {
    var a := FindUnique(rows, filter).value;
    var k :| MatchIds(rows, filter) == {k} && rows[k] == a;
    assert k in MatchIds(rows, filter);
  }

  /** An update that matches nothing changes nothing. */
  lemma UpdateWhereNoMatch(rows: map<nat, Account>, filter: map<Column, Value>, fields: map<Column, Value>)
    requires Writable(fields)
    requires MatchIds(rows, filter) == {}
    ensures UpdateWhere(rows, filter, fields) == rows
  {
    forall k | k in rows ensures UpdateWhere(rows, filter, fields)[k] == rows[k] {
      assert k !in MatchIds(rows, filter);
    }
  }

  /** The row `update` returns is the one now stored: the matched row with the new values. */
  lemma UpdateReturnsStoredRow(rows: map<nat, Account>, filter: map<Column, Value>, fields: map<Column, Value>)
    requires KeyedById(rows) && Writable(fields)
    requires FindUnique(rows, filter).Some?
    ensures var a := FindUnique(rows, filter).value;
      a.id >= 0 && a.id in rows && UpdateWhere(rows, filter, fields)[a.id] == Assign(a, fields)
  {
    FindUniqueKey(rows, filter);
    var a := FindUnique(rows, filter).value;
    assert a.id in MatchIds(rows, filter);
  }

  /** The in-memory `users` table. */
  class UserTable {
    var rows: map<nat, Account>
    /** The next value of the primary-key sequence, which stops after the largest INTEGER. */
    var nextId: nat
    /** The `created` default: the date when the model class was defined, fixed for the process. */
    const today: Date

    ghost predicate Valid()
      reads this
    {
      1 <= nextId <= Int32Max + 1 && KeyedById(rows) && forall k :: k in rows ==> 1 <= k < nextId
    }

    constructor (today: Date)
      ensures Valid() && rows == map[] && nextId == 1 && this.today == today
    {
      rows := map[];
      nextId := 1;
      this.today := today;
    }

    /** `add(**data)`: insert a row, returning nothing. */
    method Add(data: map<Column, Value>)
      requires Valid()
      modifies this
      ensures Valid()
      ensures Insertable(data) && old(nextId) <= Int32Max ==>
        && old(nextId) !in old(rows)
        && rows == old(rows)[old(nextId) := NewAccount(old(nextId), data, today)]
        && nextId == old(nextId) + 1
      ensures !(Insertable(data) && old(nextId) <= Int32Max) ==> rows == old(rows) && nextId == old(nextId)
    {
      var _ := AddReturnObj(data);
    }

    /**
     * `add_return_obj(**data)`: insert a row under a fresh id and return it;
     * None if the insert fails, for the values or for an exhausted sequence.
     */
    method AddReturnObj(data: map<Column, Value>) returns (r: Option<Account>)
      requires Valid()
      modifies this
      ensures Valid()
      ensures Insertable(data) && old(nextId) <= Int32Max ==>
        && old(nextId) !in old(rows)
        && r == Some(NewAccount(old(nextId), data, today))
        && rows == old(rows)[old(nextId) := r.value]
        && nextId == old(nextId) + 1
      ensures !(Insertable(data) && old(nextId) <= Int32Max) ==> r == None && rows == old(rows) && nextId == old(nextId)
    {
      if Insertable(data) && nextId <= Int32Max {
        var a := NewAccount(nextId, data, today);
        rows := rows[nextId := a];
        nextId := nextId + 1;
        r := Some(a);
      } else {
        r := None;
      }
    }

    /**
     * `update(filter_by, **fields)`: every matching row gets the new values;
     * the updated row is returned when exactly one row matched, and None
     * otherwise (several matches are committed before `one_or_none` raises).
     */
    method Update(filter: map<Column, Value>, fields: map<Column, Value>) returns (r: Option<Account>)
      requires Valid()
      modifies this
      ensures Valid() && nextId == old(nextId)
      ensures Filterable(filter) && Writable(fields) ==>
        && rows == UpdateWhere(old(rows), filter, fields)
        && r == match FindUnique(old(rows), filter)
                case Some(a) => Some(Assign(a, fields))
                case None => None
      ensures !(Filterable(filter) && Writable(fields)) ==> rows == old(rows) && r == None
    {
      if Filterable(filter) && Writable(fields) {
        var found := FindUnique(rows, filter);
        rows := UpdateWhere(rows, filter, fields);
        r := match found case Some(a) => Some(Assign(a, fields)) case None => None;
      } else {
        r := None;
      }
    }

    /** `delete(id)`: remove the row with that id, if any. */
    method Delete(id: int)
      requires Valid()
      modifies this
      ensures Valid() && nextId == old(nextId)
      ensures rows == if id >= 0 then old(rows) - {id} else old(rows)
    {
      if id >= 0 {
        rows := rows - {id};
      }
    }

    /** `find_by_id(id)`: the row with that primary key, or None. */
    method FindById(id: int) returns (r: Option<Account>)
      requires Valid()
      ensures r.Some? <==> id >= 0 && id in rows
      ensures r.Some? ==> r.value == rows[id] && r.value.id == id
    {
      r := if id >= 0 && id in rows then Some(rows[id]) else None;
    }

    /** `find_one_or_none(**filter)`. */
    method FindOneOrNone(filter: map<Column, Value>) returns (r: Option<Account>)
      ensures r == if Filterable(filter) then FindUnique(rows, filter) else None
    {
      r := if Filterable(filter) then FindUnique(rows, filter) else None;
    }

    /** `find_obj(**filter)`. */
    method FindObj(filter: map<Column, Value>) returns (r: Option<Account>)
      ensures r == if Filterable(filter) then FindFirst(rows, filter) else None
    {
      r := if Filterable(filter) then FindFirst(rows, filter) else None;
    }

    /** `find_all(**filter)`. */
    method FindAll(filter: map<Column, Value>) returns (r: Option<seq<Account>>)
      ensures r == if Filterable(filter) then Some(Select(rows, filter)) else None
    {
      r := if Filterable(filter) then Some(Select(rows, filter)) else None;
    }
  }
}
