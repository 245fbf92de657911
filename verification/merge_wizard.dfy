/** The record-merge wizard (deltatech_merge_product, wizard/product_merge.py):
    it merges two or more records of one model into a destination record,
    copying field values from the sources onto it and deleting the sources,
    and it walks the user through groups of duplicates. Records live in a
    store keyed by id; the SQL rewiring of references to the merged records
    is not modelled. */
module MergeWizard {
  import opened Wrappers

  // ---------------------------------------------------------------------
  // Field values

  /** A field value as `record[column]` reads it: unset (False/None), a
      boolean, a number, a text, or a linked record */
  datatype Value = Null | Bool(b: bool) | Int(n: int) | Text(s: string) | Ref(id: int)

  /** Python truthiness; a linked record is a non-empty recordset */
  predicate Truthy(v: Value)
  {
    match v
    case Null => false
    case Bool(b) => b
    case Int(n) => n != 0
    case Text(s) => |s| > 0
    case Ref(_) => true
  }

  /** `write_serializer`: a record is written as its id */
  function Serialize(v: Value): (r: Value)
    ensures !r.Ref?
    ensures Truthy(v) && !v.Ref? ==> r == v
  {
    if v.Ref? then Int(v.id) else v
  }

  /** The number a boolean or a number stands for in `+` */
  function Number(v: Value): Option<int>
  {
    match v
    case Bool(b) => Some(if b then 1 else 0)
    case Int(n) => Some(n)
    case _ => None
  }

  /** `a + b` on serialized values: numbers add and texts concatenate;
      anything else raises `TypeError` (None) */
  function Plus(a: Value, b: Value): (r: Option<Value>)
    ensures a.Int? && b.Int? ==> r == Some(Int(a.n + b.n))
    ensures a.Text? && b.Text? ==> r == Some(Text(a.s + b.s))
  {
    if Number(a).Some? && Number(b).Some? then Some(Int(Number(a).value + Number(b).value))
    else if a.Text? && b.Text? then Some(Text(a.s + b.s))
    else None
  }

  /** The scan of `_update_values` over one column: each truthy value
      replaces the collected one, or, for a summable column that already
      holds a truthy value, is added to it. `acc` is the collected value (None
      while the column is not in `values`); the outer None is a `TypeError` */
  function Scan(vals: seq<Value>, summable: bool, acc: Option<Value>): Option<Option<Value>>
    decreases |vals|
  {
    if |vals| == 0 then Some(acc)
    else if !Truthy(vals[0]) then Scan(vals[1..], summable, acc)
    else
      var v := Serialize(vals[0]);
      if summable && acc.Some? && Truthy(acc.value) then
        var p := Plus(acc.value, v);
        if p.None? then None else Scan(vals[1..], summable, Some(p.value))
      else Scan(vals[1..], summable, Some(v))
  }

  /** No value after position i is truthy */
  predicate LaterFalsy(vals: seq<Value>, i: int)
  {
    forall j :: 0 <= j < |vals| && i < j ==> !Truthy(vals[j])
  }

  /** The last truthy value, if any */
  function LastTruthy(vals: seq<Value>): (r: Option<Value>)
    ensures r.None? <==> forall i :: 0 <= i < |vals| ==> !Truthy(vals[i])
    ensures r.Some? ==> exists i :: 0 <= i < |vals| && vals[i] == r.value && Truthy(vals[i]) && LaterFalsy(vals, i)
  {
    if |vals| == 0 then None
    else
      var rest := LastTruthy(vals[1..]);
      if rest.Some? then
        ghost var i :| 0 <= i < |vals[1..]| && vals[1..][i] == rest.value && Truthy(vals[1..][i]) && LaterFalsy(vals[1..], i);
        assert vals[i + 1] == rest.value;
        assert forall j :: i + 1 < j < |vals| ==> vals[j] == vals[1..][j - 1];
        rest
      else if Truthy(vals[0]) then
        assert forall j :: 0 < j < |vals| ==> vals[j] == vals[1..][j - 1];
        Some(vals[0])
      else
        assert forall j :: 0 < j < |vals| ==> vals[j] == vals[1..][j - 1];
        None
  }

  /** A column that is not summable ends with its last truthy value,
      serialized; with no truthy value it keeps what it had */
  lemma {:induction false} LastTruthyWins(vals: seq<Value>, acc: Option<Value>)
    ensures Scan(vals, false, acc) ==
      Some(if LastTruthy(vals).Some? then Some(Serialize(LastTruthy(vals).value)) else acc)
    decreases |vals|
  {
    if |vals| > 0 {
      if Truthy(vals[0]) {
        LastTruthyWins(vals[1..], Some(Serialize(vals[0])));
      } else {
        LastTruthyWins(vals[1..], acc);
      }
    }
  }

  /** The truthy values are all positive numbers */
  predicate PositiveCounts(vals: seq<Value>)
  {
    forall i :: 0 <= i < |vals| ==> Truthy(vals[i]) ==> vals[i].Int? && vals[i].n > 0
  }

  /** The sum of the numbers */
  function Total(vals: seq<Value>): int
  {
    if |vals| == 0 then 0 else (if vals[0].Int? then vals[0].n else 0) + Total(vals[1..])
  }

  /** A summable column of positive counts ends with their sum added to the
      collected count */
  lemma {:induction false} SummableAdds(vals: seq<Value>, acc: Option<Value>)
    requires PositiveCounts(vals)
    requires acc.None? || (acc.value.Int? && acc.value.n > 0)
    ensures Scan(vals, true, acc) ==
      Some(if acc.Some? then Some(Int(acc.value.n + Total(vals)))
           else if LastTruthy(vals).Some? then Some(Int(Total(vals))) else None)
    decreases |vals|
  {
    if |vals| > 0 {
      assert PositiveCounts(vals[1..]) by {
        forall i | 0 <= i < |vals[1..]| && Truthy(vals[1..][i])
          ensures vals[1..][i].Int? && vals[1..][i].n > 0
        {
          assert vals[1..][i] == vals[i + 1];
        }
      }
      if Truthy(vals[0]) {
        var v := vals[0];
        if acc.Some? {
          SummableAdds(vals[1..], Some(Int(acc.value.n + v.n)));
        } else {
          SummableAdds(vals[1..], Some(v));
        }
      } else {
        SummableAdds(vals[1..], acc);
        if acc.None? && LastTruthy(vals[1..]).None? {
          assert LastTruthy(vals).None?;
        }
      }
    }
  }

  // ---------------------------------------------------------------------
  // Records and their order

  /** A record: its id, its creation date (None when unset) and its stored
      field values; a many2one value is a Ref */
  datatype Record = Record(id: int, createDate: Option<int>, fields: map<string, Value>)

  /** The records of the model by id */
  type Store = map<int, Record>

  /** `record[column]`: the id for "id", unset for a field without a value */
  function Get(r: Record, column: string): Value
  {
    if column == "id" then Int(r.id) else if column in r.fields then r.fields[column] else Null
  }

  /** Dates are counted from 1970-01-01, the date a record without
      `create_date` sorts at */
  const Epoch := 0

  /** The sort key of `_get_ordered_object` */
  function Key(store: Store, id: int): int
  {
    if id in store && store[id].createDate.Some? then store[id].createDate.value else Epoch
  }

  /** Newest first, as `sorted(..., reverse=True)` leaves them */
  predicate NewestFirst(store: Store, s: seq<int>)
  {
    forall i, j :: 0 <= i < j < |s| ==> Key(store, s[i]) >= Key(store, s[j])
  }

  /** Inserting into a newest-first list after every record at least as new,
      which keeps records of equal date in their original order */
  function Insert(store: Store, x: int, s: seq<int>): (r: seq<int>)
    ensures multiset(r) == multiset(s) + multiset{x}
    ensures |r| == |s| + 1
  {
    if |s| == 0 then [x]
    else if Key(store, s[0]) >= Key(store, x) then
      assert s == [s[0]] + s[1..];
      [s[0]] + Insert(store, x, s[1..])
    else [x] + s
  }

  /** `_get_ordered_object(ids)`: the records newest first, a stable sort */
  function Sort(store: Store, xs: seq<int>): (r: seq<int>)
    ensures multiset(r) == multiset(xs)
    ensures |r| == |xs|
  {
    if |xs| == 0 then []
    else
      assert xs == xs[..|xs| - 1] + [xs[|xs| - 1]];
      Insert(store, xs[|xs| - 1], Sort(store, xs[..|xs| - 1]))
  }

  /** Every record of the list is at most as new as `date` */
  predicate NoNewerThan(store: Store, s: seq<int>, date: int)
  {
    forall i :: 0 <= i < |s| ==> Key(store, s[i]) <= date
  }

  lemma {:induction false} InsertNoNewer(store: Store, x: int, s: seq<int>, date: int)
    requires NoNewerThan(store, s, date) && Key(store, x) <= date
    ensures NoNewerThan(store, Insert(store, x, s), date)
    decreases |s|
  {
    if |s| > 0 && Key(store, s[0]) >= Key(store, x) {
      InsertNoNewer(store, x, s[1..], date);
    }
  }

  lemma ConsSorted(store: Store, h: int, u: seq<int>)
    requires NewestFirst(store, u) && NoNewerThan(store, u, Key(store, h))
    ensures NewestFirst(store, [h] + u)
  {
    var r := [h] + u;
    forall i, j | 0 <= i < j < |r|
      ensures Key(store, r[i]) >= Key(store, r[j])
    {
      assert r[j] == u[j - 1];
      if i > 0 {
        assert r[i] == u[i - 1];
      }
    }
  }

  lemma {:induction false} InsertSorted(store: Store, x: int, s: seq<int>)
    requires NewestFirst(store, s)
    ensures NewestFirst(store, Insert(store, x, s))
    decreases |s|
  {
    if |s| > 0 {
      var t := s[1..];
      assert NewestFirst(store, t) && NoNewerThan(store, t, Key(store, s[0])) by {
        forall i, j | 0 <= i < j < |t|
          ensures Key(store, t[i]) >= Key(store, t[j])
        {
          assert t[i] == s[i + 1] && t[j] == s[j + 1];
        }
        forall i | 0 <= i < |t|
          ensures Key(store, t[i]) <= Key(store, s[0])
        {
          assert t[i] == s[i + 1];
        }
      }
      if Key(store, s[0]) >= Key(store, x) {
        InsertSorted(store, x, t);
        InsertNoNewer(store, x, t, Key(store, s[0]));
        ConsSorted(store, s[0], Insert(store, x, t));
      } else {
        assert s == [s[0]] + t;
        assert NoNewerThan(store, s, Key(store, x)) by {
          forall i | 0 <= i < |s|
            ensures Key(store, s[i]) <= Key(store, x)
          {
            if i > 0 {
              assert s[i] == t[i - 1];
            }
          }
        }
        ConsSorted(store, x, s);
      }
    }
  }

  /** The sort leaves the records newest first */
  lemma {:induction false} SortSorted(store: Store, xs: seq<int>)
    ensures NewestFirst(store, Sort(store, xs))
    decreases |xs|
  {
    if |xs| > 0 {
      SortSorted(store, xs[..|xs| - 1]);
      InsertSorted(store, xs[|xs| - 1], Sort(store, xs[..|xs| - 1]));
    }
  }

  /** The position of the oldest record, the last one in input order among
      equally old ones */
  function LastOldest(store: Store, xs: seq<int>): (k: nat)
    requires |xs| > 0
    ensures k < |xs|
    ensures forall i :: 0 <= i < |xs| ==> Key(store, xs[k]) <= Key(store, xs[i])
    ensures forall j :: k < j < |xs| ==> Key(store, xs[j]) > Key(store, xs[k])
  {
    var n := |xs| - 1;
    if n == 0 then 0
    else
      var p := xs[..n];
      var m := LastOldest(store, p);
      assert forall i :: 0 <= i < n ==> p[i] == xs[i];
      if Key(store, xs[n]) <= Key(store, xs[m]) then n else m
  }

  /** The last record of a newest-first list after inserting */
  lemma {:induction false} InsertLast(store: Store, x: int, s: seq<int>)
    requires |s| > 0 && NewestFirst(store, s)
    ensures var r := Insert(store, x, s);
      r[|r| - 1] == if Key(store, s[|s| - 1]) >= Key(store, x) then x else s[|s| - 1]
    decreases |s|
  {
    if Key(store, s[0]) >= Key(store, x) {
      if |s| > 1 {
        var t := s[1..];
        assert NewestFirst(store, t) by {
          forall i, j | 0 <= i < j < |t|
            ensures Key(store, t[i]) >= Key(store, t[j])
          {
            assert t[i] == s[i + 1] && t[j] == s[j + 1];
          }
        }
        InsertLast(store, x, t);
        assert t[|t| - 1] == s[|s| - 1];
      }
    } else {
      assert Key(store, s[0]) >= Key(store, s[|s| - 1]) || |s| == 1;
    }
  }

  /** `_get_ordered_object(ids)[-1]` is the oldest record, the last one in
      input order among equally old ones */
  lemma {:induction false} SortLast(store: Store, xs: seq<int>)
    requires |xs| > 0
    ensures Sort(store, xs)[|xs| - 1] == xs[LastOldest(store, xs)]
    decreases |xs|
  {
    var n := |xs| - 1;
    if n > 0 {
      var p := xs[..n];
      var s := Sort(store, p);
      SortLast(store, p);
      SortSorted(store, p);
      InsertOldest(store, xs, p, s);
      assert Sort(store, xs) == Insert(store, xs[n], s);
    }
  }

  /** Inserting the last record into the sorted others puts the oldest last */
  lemma InsertOldest(store: Store, xs: seq<int>, p: seq<int>, s: seq<int>)
    requires |xs| > 1 && p == xs[..|xs| - 1]
    requires |s| == |p| && NewestFirst(store, s) && s[|s| - 1] == p[LastOldest(store, p)]
    ensures Insert(store, xs[|xs| - 1], s)[|xs| - 1] == xs[LastOldest(store, xs)]
  {
    var n := |xs| - 1;
    var m := LastOldest(store, p);
    assert p[m] == xs[m];
    InsertLast(store, xs[n], s);
    LastOldestStep(store, xs);
  }

  /** The oldest of a list is its last record or the oldest before it */
  lemma LastOldestStep(store: Store, xs: seq<int>)
    requires |xs| > 1
    ensures var n := |xs| - 1;
      var m := LastOldest(store, xs[..n]);
      LastOldest(store, xs) == if Key(store, xs[n]) <= Key(store, xs[m]) then n else m
  {
  }

  // ---------------------------------------------------------------------
  // Merging

  /** The records of `ids` that exist, in order (`browse(ids).exists()`) */
  function Existing(store: Store, ids: seq<int>): (r: seq<int>)
    ensures |r| <= |ids|
    ensures forall x :: x in r <==> x in ids && x in store
  {
    if |ids| == 0 then []
    else
      assert ids == [ids[0]] + ids[1..];
      (if ids[0] in store then [ids[0]] else []) + Existing(store, ids[1..])
  }

  /** `exists()` filters record by record: a record that exists is kept
      in its place, repeats included */
  lemma ExistingOne(store: Store, x: int)
    ensures Existing(store, [x]) == if x in store then [x] else []
  {
  }

  /** Filtering a concatenation filters each part */
  lemma {:induction false} ExistingAppend(store: Store, a: seq<int>, b: seq<int>)
    ensures Existing(store, a + b) == Existing(store, a) + Existing(store, b)
    decreases |a|
  {
    if |a| > 0 {
      assert (a + b)[0] == a[0] && (a + b)[1..] == a[1..] + b;
      ExistingAppend(store, a[1..], b);
    } else {
      assert a + b == b;
    }
  }

  /** The linked record of `parent_id`, if any */
  function ParentOf(r: Record): Option<int>
  {
    if "parent_id" in r.fields && r.fields["parent_id"].Ref? then Some(r.fields["parent_id"].id) else None
  }

  /** `o` is a strict ancestor of `x` within `fuel` steps up the parent chain */
  function Ancestor(store: Store, x: int, o: int, fuel: nat): (r: bool)
    ensures r ==> x in store && ParentOf(store[x]).Some?
    decreases fuel
  {
    if fuel == 0 || x !in store then false
    else
      var p := ParentOf(store[x]);
      p.Some? && (p.value == o || Ancestor(store, p.value, o, fuel - 1))
  }

  /** Some object descends from another one (`object_ids & child_ids`);
      the chain is followed for as many steps as there are records, which
      reaches every ancestor */
  predicate Nested(store: Store, objects: seq<int>)
  {
    exists i, j :: 0 <= i < |objects| && 0 <= j < |objects| && objects[i] != objects[j] &&
      Ancestor(store, objects[i], objects[j], |store|)
  }

  /** The destination and the sources of a merge */
  datatype Pick = Pick(dst: int, sources: seq<int>)

  /** The records of `xs` but `x`, in order (`recordset - record`) */
  function Without(xs: seq<int>, x: int): (r: seq<int>)
    ensures |r| <= |xs|
    ensures forall y :: y in r <==> y in xs && y != x
  {
    if |xs| == 0 then []
    else
      assert xs == [xs[0]] + xs[1..];
      (if xs[0] != x then [xs[0]] else []) + Without(xs[1..], x)
  }

  /** Dropping the last record keeps the rest and their order */
  lemma DropLast(store: Store, o: seq<int>)
    requires |o| > 0
    ensures multiset(o[..|o| - 1]) + multiset{o[|o| - 1]} == multiset(o)
    ensures NewestFirst(store, o) ==> NewestFirst(store, o[..|o| - 1])
  {
    assert o == o[..|o| - 1] + [o[|o| - 1]];
  }

  /** The destination `_get_ordered_object(ids)[-1]` picks: the oldest
      object, the last in input order among equally old ones, with the
      others newest first as sources */
  function OldestLast(store: Store, objects: seq<int>): (r: Pick)
    requires |objects| > 0
    ensures r.dst == objects[LastOldest(store, objects)]
    ensures NewestFirst(store, r.sources)
    ensures multiset(r.sources) + multiset{r.dst} == multiset(objects)
  {
    var o := Sort(store, objects);
    var n := |o| - 1;
    SortLast(store, objects);
    SortSorted(store, objects);
    DropLast(store, o);
    Pick(o[n], o[..n])
  }

  /** The destination of `_merge`: the given one when it is among the
      objects, all others being sources; else the one `OldestLast` picks */
  function Destination(store: Store, objects: seq<int>, dst: Option<int>): (r: Pick)
    requires |objects| > 0
    ensures r.dst in objects
    ensures forall x :: x in r.sources ==> x in objects
    ensures dst.Some? && dst.value in objects ==>
      r.dst == dst.value && forall x :: x in objects ==> (x in r.sources <==> x != r.dst)
    ensures !(dst.Some? && dst.value in objects) ==> r == OldestLast(store, objects)
  {
    if dst.Some? && dst.value in objects then Pick(dst.value, Without(objects, dst.value))
    else
      var r := OldestLast(store, objects);
      assert r.dst in multiset(objects);
      assert forall x :: x in r.sources ==> x in multiset(objects);
      r
  }

  /** The records of the given ids */
  function Records(store: Store, ids: seq<int>): (r: seq<Record>)
    requires forall i :: 0 <= i < |ids| ==> ids[i] in store
    ensures |r| == |ids|
    ensures forall i :: 0 <= i < |ids| ==> r[i] == store[ids[i]]
  {
    seq(|ids|, i requires 0 <= i < |ids| => store[ids[i]])
  }

  /** The kind of a field: plain, many2one, or one2many/many2many */
  datatype FieldKind = Plain | Many2one | ToMany

  /** A field of the model, in `fields_get()` order */
  datatype FieldDef = FieldDef(name: string, kind: FieldKind, computed: bool)

  /** `_update_values` copies the stored fields that are no lists */
  predicate Copied(f: FieldDef)
  {
    f.kind != ToMany && !f.computed
  }

  /** Some copied field has that name */
  predicate Copies(fields: seq<FieldDef>, name: string)
  {
    exists i :: 0 <= i < |fields| && Copied(fields[i]) && fields[i].name == name
  }

  /** No copied field is summable */
  predicate NoneSummable(fields: seq<FieldDef>, summable: set<string>)
  {
    forall i :: 0 <= i < |fields| && Copied(fields[i]) ==> fields[i].name !in summable
  }

  /** A column read on the sources, then on the destination */
  function Column(records: seq<Record>, name: string): (r: seq<Value>)
    ensures |r| == |records|
    ensures forall i :: 0 <= i < |records| ==> r[i] == Get(records[i], name)
  {
    seq(|records|, i requires 0 <= i < |records| => Get(records[i], name))
  }

  /** The `values` dictionary of `_update_values`, before `id` and
      `parent_id` are taken out; None when `+` raises */
  function Collect(fields: seq<FieldDef>, records: seq<Record>, summable: set<string>,
                   values: map<string, Value>): Option<map<string, Value>>
    decreases |fields|
  {
    if |fields| == 0 then Some(values)
    else
      var f := fields[0];
      if !Copied(f) then Collect(fields[1..], records, summable, values)
      else
        var acc := if f.name in values then Some(values[f.name]) else None;
        var r := Scan(Column(records, f.name), f.name in summable, acc);
        if r.None? then None
        else
          var next := if r.value.Some? then values[f.name := r.value.value] else values;
          Collect(fields[1..], records, summable, next)
  }

  /** Without summable fields, every copied column ends with its last truthy
      value, serialized, and every other key keeps what it had */
  lemma {:induction false} CollectColumn(fields: seq<FieldDef>, records: seq<Record>, summable: set<string>,
                                         values: map<string, Value>, name: string)
    requires NoneSummable(fields, summable)
    ensures Collect(fields, records, summable, values).Some?
    ensures var r := Collect(fields, records, summable, values).value;
      var last := LastTruthy(Column(records, name));
      if Copies(fields, name) && last.Some? then name in r && r[name] == Serialize(last.value)
      else (name in r <==> name in values) && (name in values ==> r[name] == values[name])
    decreases |fields|
  {
    if |fields| > 0 {
      var f := fields[0];
      var rest := fields[1..];
      assert NoneSummable(rest, summable) by {
        forall i | 0 <= i < |rest| && Copied(rest[i])
          ensures rest[i].name !in summable
        {
          assert rest[i] == fields[i + 1];
        }
      }
      assert Copies(fields, name) <==> (Copied(f) && f.name == name) || Copies(rest, name) by {
        if Copies(fields, name) {
          var i :| 0 <= i < |fields| && Copied(fields[i]) && fields[i].name == name;
          if i > 0 {
            assert rest[i - 1] == fields[i];
          }
        }
        if Copies(rest, name) {
          var i :| 0 <= i < |rest| && Copied(rest[i]) && rest[i].name == name;
          assert fields[i + 1] == rest[i];
        }
      }
      if !Copied(f) {
        assert Collect(fields, records, summable, values) == Collect(rest, records, summable, values);
        CollectColumn(rest, records, summable, values, name);
      } else {
        var acc := if f.name in values then Some(values[f.name]) else None;
        var col := Column(records, f.name);
        assert f.name !in summable;
        LastTruthyWins(col, acc);
        var last := LastTruthy(col);
        var next := if last.Some? then values[f.name := Serialize(last.value)] else values;
        if last.None? && f.name in values {
          assert values[f.name := values[f.name]] == values;
        }
        assert Collect(fields, records, summable, values) == Collect(rest, records, summable, next);
        CollectColumn(rest, records, summable, next, name);
      }
    }
  }

  /** The value written for a key: an id on a many2one field links the record */
  function Relink(fields: seq<FieldDef>, name: string, v: Value): Value
  {
    if v.Int? && exists i :: 0 <= i < |fields| && fields[i].name == name && fields[i].kind == Many2one then Ref(v.n)
    else v
  }

  /** The parent `_update_values` sets: a truthy collected parent other than
      the destination itself, unless the destination is one of its
      ancestors (the recursion check rejects that write and it is skipped) */
  function NewParent(store: Store, d: int, values: map<string, Value>): Option<int>
  {
    var parent := if "parent_id" in values then values["parent_id"] else Null;
    if parent.Int? && parent.n != 0 && parent.n != d && !Ancestor(store, parent.n, d, |store|) then Some(parent.n)
    else None
  }

  /** `_update_values` after the scan: the destination gets every collected
      value but `id` and `parent_id`, then the new parent if there is one;
      no other record changes */
  function WriteValues(store: Store, d: int, fields: seq<FieldDef>, values: map<string, Value>): (r: Store)
    requires d in store
    ensures r.Keys == store.Keys
    ensures forall k :: k in store && k != d ==> r[k] == store[k]
    ensures r[d].id == store[d].id && r[d].createDate == store[d].createDate
    ensures forall name :: name in values && name != "id" && name != "parent_id" ==>
      name in r[d].fields && r[d].fields[name] == Relink(fields, name, values[name])
    ensures forall name :: name !in values && name in store[d].fields ==>
      name in r[d].fields && (name != "parent_id" ==> r[d].fields[name] == store[d].fields[name])
    ensures ParentOf(r[d]) == if NewParent(store, d, values).Some? then NewParent(store, d, values) else ParentOf(store[d])
  {
    var rec := store[d];
    var copied := map k | k in values && k != "id" && k != "parent_id" :: Relink(fields, k, values[k]);
    var written := rec.(fields := rec.fields + copied);
    var p := NewParent(store, d, values);
    var final := if p.Some? then written.(fields := written.fields["parent_id" := Ref(p.value)]) else written;
    assert ParentOf(written) == ParentOf(rec);
    store[d := final]
  }

  /** The store after `src_objects.unlink()` */
  function Delete(store: Store, ids: seq<int>): (r: Store)
    ensures forall k :: k in r <==> k in store && k !in ids
    ensures forall k :: k in r ==> r[k] == store[k]
  {
    map k | k in store && k !in ids :: store[k]
  }

  /** Why `_merge` refuses: too many objects, an object below another one,
      or a summable column whose values cannot be added */
  datatype MergeError = TooMany(max: int) | NestedObjects | NotAddable

  /** The outcome of `_merge`: the store after the merge, or the error raised */
  datatype Outcome = Done(store: Store) | Failed(error: MergeError)

  /** The default of `deltatech_merge.merge_objects_max_number` */
  const DefaultMaximum := 3

  /** `_merge(ids, dst)`: `maximum` is the configured maximum, if set;
      `hasParent` says whether the model has a `parent_id` field */
  function Merge(store: Store, ids: seq<int>, dst: Option<int>, maximum: Option<int>, hasParent: bool,
                 fields: seq<FieldDef>, summable: set<string>): (r: Outcome)
    ensures r.Done? ==> r.store.Keys <= store.Keys
    ensures |Existing(store, ids)| < 2 ==> r == Done(store)
    ensures r == Failed(TooMany(maximum.GetOr(DefaultMaximum))) <==>
      |Existing(store, ids)| >= 2 && |Existing(store, ids)| > maximum.GetOr(DefaultMaximum)
    ensures r == Failed(NestedObjects) <==>
      2 <= |Existing(store, ids)| <= maximum.GetOr(DefaultMaximum) && hasParent && Nested(store, Existing(store, ids))
    ensures r.Failed? && r.error.TooMany? ==> r.error.max == maximum.GetOr(DefaultMaximum)
  {
    var objects := Existing(store, ids);
    if |objects| < 2 then Done(store)
    else
      var max := maximum.GetOr(DefaultMaximum);
      if |objects| > max then Failed(TooMany(max))
      else if hasParent && Nested(store, objects) then Failed(NestedObjects)
      else
        var pick := Destination(store, objects, dst);
        var values := Collect(fields, Records(store, pick.sources) + [store[pick.dst]], summable, map[]);
        if values.None? then Failed(NotAddable)
        else Done(Delete(WriteValues(store, pick.dst, fields, values.value), pick.sources))
  }

  /** The column a merge reads for `name`: on the sources, then on the
      destination */
  function MergedColumn(store: Store, pick: Pick, name: string): seq<Value>
    requires pick.dst in store
    requires forall i :: 0 <= i < |pick.sources| ==> pick.sources[i] in store
  {
    Column(Records(store, pick.sources) + [store[pick.dst]], name)
  }

  /** What the destination holds in column `name` after the merge `s`: the
      last truthy value read on the sources and then on the destination, or,
      when there is none, what it held before */
  predicate CarriedOver(store: Store, pick: Pick, s: Store, fields: seq<FieldDef>, name: string)
    requires pick.dst in store && pick.dst in s
    requires forall i :: 0 <= i < |pick.sources| ==> pick.sources[i] in store
  {
    var last := LastTruthy(MergedColumn(store, pick, name));
    if Copies(fields, name) && last.Some? then
      name in s[pick.dst].fields && s[pick.dst].fields[name] == Relink(fields, name, Serialize(last.value))
    else
      name in store[pick.dst].fields ==>
        name in s[pick.dst].fields && s[pick.dst].fields[name] == store[pick.dst].fields[name]
  }

  /** A merge that goes through keeps every record outside the objects,
      deletes the sources, and, unless the destination is itself listed among
      the sources, leaves it in place with each copied column (other than
      `id` and `parent_id`) holding the last truthy value read on the sources
      and then on the destination, or what it held when there is none */
  lemma MergeEffect(store: Store, ids: seq<int>, dst: Option<int>, maximum: Option<int>, hasParent: bool,
                    fields: seq<FieldDef>, summable: set<string>, name: string)
    requires NoneSummable(fields, summable)
    requires |Existing(store, ids)| >= 2
    requires Merge(store, ids, dst, maximum, hasParent, fields, summable).Done?
    ensures var objects := Existing(store, ids);
      var pick := Destination(store, objects, dst);
      var s := Merge(store, ids, dst, maximum, hasParent, fields, summable).store;
      (forall k :: k in store && k !in objects ==> k in s && s[k] == store[k]) &&
      (forall k :: k in pick.sources ==> k !in s) &&
      (pick.dst !in pick.sources ==>
        pick.dst in s && s[pick.dst].id == store[pick.dst].id &&
        (name != "id" && name != "parent_id" ==> CarriedOver(store, pick, s, fields, name)))
  {
    var objects := Existing(store, ids);
    var pick := Destination(store, objects, dst);
    var records := Records(store, pick.sources) + [store[pick.dst]];
    CollectColumn(fields, records, summable, map[], name);
  }

  // ---------------------------------------------------------------------
  // The wizard

  /** The wizard's `state` */
  datatype Stage = Options | Selection | Finished

  /** A `merge.object.line`: one group of duplicates */
  datatype MergeLine = MergeLine(id: int, minId: int, aggrIds: seq<int>)

  /** The wizard: its stage, its remaining lines, the line shown, the objects
      shown (as the field reads them back, see `Stored`) and the chosen
      destination */
  datatype Wizard = Wizard(stage: Stage, lines: seq<MergeLine>, current: Option<int>,
                           objects: seq<int>, dst: Option<int>)

  /** The position of the first line by `min_id` (the lines' `_order`),
      earlier lines first among equal ones */
  function Earliest(lines: seq<MergeLine>): (k: nat)
    requires |lines| > 0
    ensures k < |lines|
    ensures forall i :: 0 <= i < |lines| ==> lines[k].minId <= lines[i].minId
    ensures forall i :: 0 <= i < k ==> lines[i].minId > lines[k].minId
  {
    if |lines| == 1 then 0
    else
      var k := Earliest(lines[1..]);
      assert forall i :: 1 <= i < |lines| ==> lines[i] == lines[1..][i - 1];
      if lines[0].minId <= lines[k + 1].minId then 0 else k + 1
  }

  /** `_get_ordered_object(ids)[-1].id`: None when there is no record or one
      is missing (reading its date raises) */
  function OldestOf(store: Store, ids: seq<int>): Option<int>
  {
    if |ids| > 0 && forall i :: 0 <= i < |ids| ==> ids[i] in store then Some(ids[LastOldest(store, ids)])
    else None
  }

  /** Strictly increasing: the order in which `object_ids` reads back, a
      Many2many on a model ordered by id */
  predicate Ascending(s: seq<int>)
  {
    forall i, j :: 0 <= i < j < |s| ==> s[i] < s[j]
  }

  /** One more id in an ascending list, kept once */
  function AddAscending(x: int, s: seq<int>): (r: seq<int>)
    requires Ascending(s)
    ensures Ascending(r)
    ensures forall y :: y in r <==> y == x || y in s
  {
    if |s| == 0 then [x]
    else if x < s[0] then [x] + s
    else if x == s[0] then s
    else
      var t := AddAscending(x, s[1..]);
      AfterHead(s, s[1..]);
      PrependAscending(s[0], t);
      [s[0]] + t
  }

  /** `object_ids` once `[(6, 0, ids)]` is written and read back: every id
      once, in ascending order, whatever order and repeats `ids` had */
  function Stored(ids: seq<int>): (r: seq<int>)
    ensures Ascending(r)
    ensures forall x :: x in r <==> x in ids
  {
    if |ids| == 0 then []
    else
      var n := |ids| - 1;
      assert ids == ids[..n] + [ids[n]];
      AddAscending(ids[n], Stored(ids[..n]))
  }

  /** An ascending list is fixed by its members: whatever order the ids are
      written in, the field reads back the same list */
  lemma {:induction false} AscendingUnique(a: seq<int>, b: seq<int>)
    requires Ascending(a) && Ascending(b)
    requires forall x :: x in a <==> x in b
    ensures a == b
    decreases |a|
  {
    assert |a| > 0 ==> a[0] in a;
    assert |b| > 0 ==> b[0] in b;
    if |a| > 0 && |b| > 0 {
      AscendingTails(a, b);
      AscendingUnique(a[1..], b[1..]);
      assert a == [a[0]] + a[1..] && b == [b[0]] + b[1..];
    }
  }

  /** Two ascending lists with the same members start alike and go on with
      the same members */
  lemma AscendingTails(a: seq<int>, b: seq<int>)
    requires Ascending(a) && Ascending(b) && |a| > 0 && |b| > 0
    requires forall x :: x in a <==> x in b
    ensures a[0] == b[0]
    ensures forall x :: x in a[1..] <==> x in b[1..]
  {
    assert a[0] in a && b[0] in b;
    var j :| 0 <= j < |b| && b[j] == a[0];
    var i :| 0 <= i < |a| && a[i] == b[0];
    assert b[0] <= b[j] && a[0] <= a[i];
    forall x
      ensures x in a[1..] ==> x in b[1..]
    {
      if x in a[1..] {
        TailMember(a, b, x);
      }
    }
    forall x
      ensures x in b[1..] ==> x in a[1..]
    {
      if x in b[1..] {
        TailMember(b, a, x);
      }
    }
  }

  /** A member after the head of one list is after the head of the other */
  lemma TailMember(a: seq<int>, b: seq<int>, x: int)
    requires Ascending(a) && Ascending(b) && |a| > 0 && |b| > 0 && a[0] == b[0]
    requires x in a[1..] && x in b
    ensures x in b[1..]
  {
    var i :| 0 <= i < |a[1..]| && a[1..][i] == x;
    assert a[i + 1] == x && a[0] < a[i + 1];
    var j :| 0 <= j < |b| && b[j] == x;
    assert j > 0 && b[1..][j - 1] == x;
  }

  /** Writing the same ids in another order, or with repeats, shows the same
      objects */
  lemma StoredSameMembers(a: seq<int>, b: seq<int>)
    requires forall x :: x in a <==> x in b
    ensures Stored(a) == Stored(b)
  {
    AscendingUnique(Stored(a), Stored(b));
  }

  /** Taking one record out of an ascending list keeps it ascending: the
      sources of a merge run from the wizard come in id order */
  lemma {:induction false} WithoutAscending(xs: seq<int>, x: int)
    requires Ascending(xs)
    ensures Ascending(Without(xs, x))
    decreases |xs|
  {
    if |xs| > 0 {
      WithoutAscending(xs[1..], x);
      AfterHead(xs, Without(xs[1..], x));
      if xs[0] != x {
        PrependAscending(xs[0], Without(xs[1..], x));
      }
    }
  }

  /** So does keeping only the records that still exist: the relation reads
      back in id order after a deletion too */
  lemma {:induction false} ExistingAscending(store: Store, xs: seq<int>)
    requires Ascending(xs)
    ensures Ascending(Existing(store, xs))
    decreases |xs|
  {
    if |xs| > 0 {
      ExistingAscending(store, xs[1..]);
      AfterHead(xs, Existing(store, xs[1..]));
      if xs[0] in store {
        PrependAscending(xs[0], Existing(store, xs[1..]));
      }
    }
  }

  /** What is drawn from the tail of an ascending list comes after its head */
  lemma AfterHead(xs: seq<int>, t: seq<int>)
    requires Ascending(xs) && |xs| > 0
    requires forall y :: y in t ==> y in xs[1..]
    ensures forall y :: y in t ==> xs[0] < y
  {
    forall y | y in t
      ensures xs[0] < y
    {
      var i :| 0 <= i < |xs[1..]| && xs[1..][i] == y;
      assert xs[i + 1] == y;
    }
  }

  /** A smaller id in front of an ascending list keeps it ascending */
  lemma PrependAscending(x: int, t: seq<int>)
    requires Ascending(t) && forall y :: y in t ==> x < y
    ensures Ascending([x] + t)
  {
    var r := [x] + t;
    forall i, j | 0 <= i < j < |r|
      ensures r[i] < r[j]
    {
      assert r[j] == t[j - 1];
      if i > 0 {
        assert r[i] == t[i - 1];
      } else {
        assert r[j] in t;
      }
    }
  }

  /** A merge run from the wizard takes its sources in id order, whatever
      order the records were selected in */
  lemma WizardSourcesAscending(store: Store, ids: seq<int>, dst: int)
    ensures Ascending(Without(Existing(store, Stored(ids)), dst))
  {
    ExistingAscending(store, Stored(ids));
    WithoutAscending(Existing(store, Stored(ids)), dst);
  }

  /** Reading the field back and writing it again changes nothing */
  lemma StoredIdempotent(ids: seq<int>)
    ensures Stored(Stored(ids)) == Stored(ids)
  {
    AscendingUnique(Stored(Stored(ids)), Stored(ids));
  }

  /** Ids already in ascending order read back as written */
  lemma StoredAscending(ids: seq<int>)
    requires Ascending(ids)
    ensures Stored(ids) == ids
  {
    AscendingUnique(Stored(ids), ids);
  }

  /** The line with that id is somewhere in the lines */
  predicate Listed(lines: seq<MergeLine>, id: int)
  {
    exists i :: 0 <= i < |lines| && lines[i].id == id
  }

  /** The wizard's invariant: a selection shows a destination among its
      objects, and the line shown is still a line of the wizard */
  predicate Consistent(w: Wizard)
  {
    (w.stage == Selection ==> w.dst.Some? && w.dst.value in w.objects) &&
    (w.current.Some? ==> Listed(w.lines, w.current.value))
  }

  /** `default_get`: launched on records of the model, the wizard opens on
      them with the oldest as destination; otherwise it opens on its options.
      None when a record is missing */
  function DefaultGet(store: Store, onModel: bool, activeIds: seq<int>): (r: Option<Wizard>)
    ensures r.Some? ==> Consistent(r.value) && r.value.current.None? && r.value.lines == []
    ensures onModel && |activeIds| > 0 ==>
      (r.Some? <==> forall i :: 0 <= i < |activeIds| ==> activeIds[i] in store) &&
      (r.Some? ==> r.value.stage == Selection && r.value.objects == Stored(activeIds) &&
                   r.value.dst == Some(activeIds[LastOldest(store, activeIds)]))
    ensures !(onModel && |activeIds| > 0) ==> r == Some(Wizard(Options, [], None, [], None))
  {
    if onModel && |activeIds| > 0 then
      var d := OldestOf(store, activeIds);
      if d.None? then None else Some(Wizard(Selection, [], None, Stored(activeIds), d))
    else Some(Wizard(Options, [], None, [], None))
  }

  /** `_action_next_screen`: shows the first remaining line's group with its
      oldest record as destination, or finishes when no line is left. None
      when the group is empty or one of its records is missing */
  function NextScreen(store: Store, w: Wizard): (r: Option<Wizard>)
    ensures r.Some? ==> r.value.lines == w.lines
    ensures r.Some? && (w.current.None? || Listed(w.lines, w.current.value)) ==> Consistent(r.value)
    ensures |w.lines| == 0 ==> r == Some(w.(stage := Finished, current := None))
    ensures |w.lines| > 0 ==>
      var line := w.lines[Earliest(w.lines)];
      (r.Some? <==> |line.aggrIds| > 0 && forall i :: 0 <= i < |line.aggrIds| ==> line.aggrIds[i] in store) &&
      (r.Some? ==> r.value.stage == Selection && r.value.current == Some(line.id) &&
                   r.value.objects == Stored(line.aggrIds) && r.value.dst == Some(line.aggrIds[LastOldest(store, line.aggrIds)]))
  {
    if |w.lines| == 0 then Some(w.(stage := Finished, current := None))
    else
      var k := Earliest(w.lines);
      var line := w.lines[k];
      var d := OldestOf(store, line.aggrIds);
      if d.None? then None
      else Some(w.(stage := Selection, current := Some(line.id), objects := Stored(line.aggrIds), dst := d))
  }

  /** The lines but the one with that id (`current_line_id.unlink()`) */
  function RemoveLine(lines: seq<MergeLine>, id: int): (r: seq<MergeLine>)
    ensures forall l :: l in r <==> l in lines && l.id != id
    ensures Listed(lines, id) ==> |r| < |lines|
    ensures |r| <= |lines|
  {
    if |lines| == 0 then []
    else
      assert lines == [lines[0]] + lines[1..];
      var rest := RemoveLine(lines[1..], id);
      if lines[0].id == id then rest
      else
        assert Listed(lines, id) ==> Listed(lines[1..], id) by {
          if Listed(lines, id) {
            var i :| 0 <= i < |lines| && lines[i].id == id;
            assert lines[1..][i - 1] == lines[i];
          }
        }
        [lines[0]] + rest
  }

  /** The lines left once the shown line is done with */
  function Remaining(w: Wizard): seq<MergeLine>
  {
    if w.current.Some? then RemoveLine(w.lines, w.current.value) else w.lines
  }

  /** `action_skip`: drops the shown line and moves on; from a consistent
      wizard the lines strictly shrink, so the wizard always finishes */
  function ActionSkip(store: Store, w: Wizard): (r: Option<Wizard>)
    requires Consistent(w)
    ensures r.Some? ==> Consistent(r.value)
    ensures r.Some? && w.current.Some? ==>
      |r.value.lines| < |w.lines| && forall l :: l in r.value.lines ==> l.id != w.current.value
  {
    NextScreen(store, w.(lines := Remaining(w)))
  }

  /** What a wizard action leads to: the next screen, the error `_merge`
      raises, or a group that cannot be read */
  datatype Step = Shown(store: Store, wizard: Wizard) | Refused(error: MergeError) | Unreadable

  /** `action_merge`: with no objects shown it just finishes; otherwise it
      merges them into the destination, drops the shown line and moves on.
      The objects are read from the relation, which no longer holds the
      records deleted since they were written */
  function ActionMerge(store: Store, w: Wizard, maximum: Option<int>, hasParent: bool,
                       fields: seq<FieldDef>, summable: set<string>): (r: Step)
    requires Consistent(w)
    ensures r.Shown? ==> Consistent(r.wizard) && r.store.Keys <= store.Keys
    ensures |Existing(store, w.objects)| == 0 ==> r == Shown(store, w.(stage := Finished))
    ensures |Existing(store, w.objects)| > 0 ==>
      var m := Merge(store, Existing(store, w.objects), w.dst, maximum, hasParent, fields, summable);
      (m.Failed? ==> r == Refused(m.error)) && (r.Refused? ==> m.Failed?) &&
      (r.Shown? ==> m.Done? && r.store == m.store &&
                    (w.current.Some? ==> |r.wizard.lines| < |w.lines|))
  {
    var objects := Existing(store, w.objects);
    if |objects| == 0 then Shown(store, w.(stage := Finished))
    else
      var m := Merge(store, objects, w.dst, maximum, hasParent, fields, summable);
      if m.Failed? then Refused(m.error)
      else
        var next := NextScreen(m.store, w.(lines := Remaining(w)));
        if next.None? then Unreadable else Shown(m.store, next.value)
  }
}
