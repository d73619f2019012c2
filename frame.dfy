/**
 * The in-repo `DataFrame`: a list of row dictionaries plus a list of column
 * names. A row is modelled as the items of its dict in insertion order,
 * because the library takes a new frame's columns from the keys of its first
 * row. Rows are values: the aliasing of row dicts between frames produced by
 * `dropna` and mask filtering is not modelled.
 */
module Frame {
  import opened Common
  import opened PyValues
  import opened PySeries
  import opened Ordering

  /** One row: the (key, value) items of a Python dict, in insertion order. */
  type Row = seq<(string, Value)>

  function Keys(r: Row): (ks: seq<string>)
    ensures |ks| == |r| && forall i :: 0 <= i < |r| ==> ks[i] == r[i].0
  {
    seq(|r|, i requires 0 <= i < |r| => r[i].0)
  }

  /** `row.get(key)`: the value stored under `key`, None when the key is absent. */
  function Get(r: Row, k: string): (v: Value)
    ensures k !in Keys(r) ==> v.Null?
  {
    if |r| == 0 then Null
    else if r[0].0 == k then r[0].1
    else
      assert Keys(r[1..]) == Keys(r)[1..];
      Get(r[1..], k)
  }

  /** Looking a key up in a row that starts with entry `e`. */
  lemma GetCons(e: (string, Value), t: Row)
    ensures forall k :: Get([e] + t, k) == if e.0 == k then e.1 else Get(t, k)
  {
    assert ([e] + t)[1..] == t;
  }

  /** `row[key] = v`: the entry under `key` is overwritten, or a new entry is appended. */
  function Set(r: Row, k: string, v: Value): (r': Row)
    ensures Get(r', k) == v
    ensures forall k' :: k' != k ==> Get(r', k') == Get(r, k')
    ensures Keys(r') == if k in Keys(r) then Keys(r) else Keys(r) + [k]
  {
    if |r| == 0 then [(k, v)]
    else if r[0].0 == k then
      SetHead(r, k, v);
      [(k, v)] + r[1..]
    else
      var t := Set(r[1..], k, v);
      SetTail(r, k, v, t);
      [r[0]] + t
  }

  /** Overwriting the first entry of a row. */
  lemma SetHead(r: Row, k: string, v: Value)
    requires |r| > 0 && r[0].0 == k
    ensures Get([(k, v)] + r[1..], k) == v
    ensures forall k' :: k' != k ==> Get([(k, v)] + r[1..], k') == Get(r, k')
    ensures Keys([(k, v)] + r[1..]) == Keys(r)
  {
    assert r == [r[0]] + r[1..];
    GetCons(r[0], r[1..]);
    GetCons((k, v), r[1..]);
  }

  /** Setting a key past the first entry of a row, given the update `t` of the rest. */
  lemma SetTail(r: Row, k: string, v: Value, t: Row)
    requires |r| > 0 && r[0].0 != k
    requires Get(t, k) == v
    requires forall k' :: k' != k ==> Get(t, k') == Get(r[1..], k')
    requires Keys(t) == if k in Keys(r[1..]) then Keys(r[1..]) else Keys(r[1..]) + [k]
    ensures Get([r[0]] + t, k) == v
    ensures forall k' :: k' != k ==> Get([r[0]] + t, k') == Get(r, k')
    ensures Keys([r[0]] + t) == if k in Keys(r) then Keys(r) else Keys(r) + [k]
  {
    assert r == [r[0]] + r[1..];
    GetCons(r[0], r[1..]);
    GetCons(r[0], t);
    SetTailKeys(r, k, t);
  }

  /** The key part of `SetTail`. */
  lemma SetTailKeys(r: Row, k: string, t: Row)
    requires |r| > 0 && r[0].0 != k
    requires Keys(t) == if k in Keys(r[1..]) then Keys(r[1..]) else Keys(r[1..]) + [k]
    ensures Keys([r[0]] + t) == if k in Keys(r) then Keys(r) else Keys(r) + [k]
  {
    assert r == [r[0]] + r[1..];
    KeysCons(r[0], r[1..]);
    KeysCons(r[0], t);
    if k in Keys(r[1..]) {
      assert k in Keys(r);
    } else {
      assert k !in Keys(r);
      assert [r[0].0] + (Keys(r[1..]) + [k]) == ([r[0].0] + Keys(r[1..])) + [k];
    }
  }

  /** The keys of a row that starts with entry `e`. */
  lemma KeysCons(e: (string, Value), t: Row)
    ensures Keys([e] + t) == [e.0] + Keys(t)
  {
  }

  /** `{k: v for k, v in row.items() if k not in cols}`. */
  function DropKeys(r: Row, cols: seq<string>): (r': Row)
    ensures forall k :: Get(r', k) == if k in cols then Null else Get(r, k)
    ensures forall k :: k in Keys(r') <==> k in Keys(r) && k !in cols
  {
    if |r| == 0 then []
    else
      var t := DropKeys(r[1..], cols);
      assert Keys(r[1..]) == Keys(r)[1..];
      if r[0].0 in cols then t
      else
        assert Keys([r[0]] + t) == [r[0].0] + Keys(t);
        [r[0]] + t
  }

  /** `{col: row.get(col) for col in keys}`. */
  function Project(r: Row, keys: seq<string>): (p: Row)
    ensures forall k :: Get(p, k) == if k in keys then Get(r, k) else Null
  {
    if |keys| == 0 then []
    else
      var front := keys[..|keys| - 1];
      var last := keys[|keys| - 1];
      assert keys == front + [last];
      Set(Project(r, front), last, Get(r, last))
  }

  /** Projecting on distinct keys yields exactly those keys, in that order. */
  lemma {:induction false} ProjectKeys(r: Row, keys: seq<string>)
    requires Distinct(keys)
    ensures Keys(Project(r, keys)) == keys
  {
    if |keys| > 0 {
      var front := keys[..|keys| - 1];
      var last := keys[|keys| - 1];
      assert keys == front + [last];
      DistinctSnoc(front, last);
      ProjectKeys(r, front);
    }
  }

  /** A sequence with a last element added is distinct when its front is and the element is new. */
  lemma DistinctSnoc<T>(front: seq<T>, last: T)
    ensures Distinct(front + [last]) ==> Distinct(front) && last !in front
  {
    var s := front + [last];
    if Distinct(s) {
      forall i, j | 0 <= i < j < |front| ensures front[i] != front[j] {
        assert s[i] == front[i] && s[j] == front[j];
      }
      forall i | 0 <= i < |front| ensures front[i] != last {
        assert s[i] == front[i] && s[|front|] == last;
      }
    }
  }

  /** A projection depends only on what the row holds under the projected keys. */
  lemma {:induction false} ProjectByGets(a: Row, b: Row, keys: seq<string>)
    requires forall k :: k in keys ==> Get(a, k) == Get(b, k)
    ensures Project(a, keys) == Project(b, keys)
  {
    if |keys| > 0 {
      ProjectByGets(a, b, keys[..|keys| - 1]);
    }
  }

  /** A second write to the same key wins, and the entry keeps its place. */
  lemma {:induction false} SetTwice(r: Row, k: string, v: Value, w: Value)
    ensures Set(Set(r, k, v), k, w) == Set(r, k, w)
  {
    if |r| > 0 && r[0].0 != k {
      SetTwice(r[1..], k, v, w);
      var t := Set(r[1..], k, v);
      assert ([r[0]] + t)[1..] == t;
    } else if |r| > 0 {
      assert ([(k, v)] + r[1..])[1..] == r[1..];
    }
  }

  /** Every row without the entries under `cols`. */
  function DropColumns(rows: seq<Row>, cols: seq<string>): seq<Row> {
    seq(|rows|, i requires 0 <= i < |rows| => DropKeys(rows[i], cols))
  }

  /** `drop(columns)` keeps the number of rows and, in each row, every value outside `cols`. */
  lemma DropColumnsRows(rows: seq<Row>, cols: seq<string>)
    ensures |DropColumns(rows, cols)| == |rows|
    ensures forall i, k :: 0 <= i < |rows| ==>
      Get(DropColumns(rows, cols)[i], k) == if k in cols then Null else Get(rows[i], k)
    ensures forall i, k :: 0 <= i < |rows| ==>
      (k in Keys(DropColumns(rows, cols)[i]) <==> k in Keys(rows[i]) && k !in cols)
  {
  }

  /** Dropping no keys leaves the row as it is. */
  lemma {:induction false} DropNothing(r: Row)
    ensures DropKeys(r, []) == r
  {
    if |r| > 0 {
      DropNothing(r[1..]);
      assert r == [r[0]] + r[1..];
    }
  }

  /** Dropping one list of keys and then another is dropping both. */
  lemma {:induction false} DropKeysTwice(r: Row, a: seq<string>, b: seq<string>)
    ensures DropKeys(DropKeys(r, a), b) == DropKeys(r, a + b)
  {
    if |r| > 0 {
      DropKeysTwice(r[1..], a, b);
      var t := DropKeys(r[1..], a);
      if r[0].0 !in a {
        assert ([r[0]] + t)[1..] == t;
      }
    }
  }

  /** Dropping no columns leaves the rows as they are. */
  lemma DropNoColumns(rows: seq<Row>)
    ensures DropColumns(rows, []) == rows
  {
    forall i | 0 <= i < |rows| ensures DropColumns(rows, [])[i] == rows[i] {
      DropNothing(rows[i]);
    }
  }

  /** Dropping one list of columns and then another is dropping both. */
  lemma DropColumnsTwice(rows: seq<Row>, a: seq<string>, b: seq<string>)
    ensures DropColumns(DropColumns(rows, a), b) == DropColumns(rows, a + b)
  {
    forall i | 0 <= i < |rows| ensures DropColumns(DropColumns(rows, a), b)[i] == DropColumns(rows, a + b)[i] {
      DropKeysTwice(rows[i], a, b);
    }
  }

  /** `tuple(row.get(col) for col in cols)`: the key `duplicated` and `sort_values` use. */
  function RowKey(r: Row, cols: seq<string>): (key: seq<Value>)
    ensures |key| == |cols| && forall i :: 0 <= i < |cols| ==> key[i] == Get(r, cols[i])
  {
    seq(|cols|, i requires 0 <= i < |cols| => Get(r, cols[i]))
  }

  /** `df[key]` for a column name: the Series of `row.get(key)` over the rows. */
  function ColumnOf(rows: seq<Row>, key: string): (s: Series)
    ensures s.name == key && |s.data| == |rows|
    ensures forall i :: 0 <= i < |rows| ==> s.data[i] == Get(rows[i], key)
  {
    Series(seq(|rows|, i requires 0 <= i < |rows| => Get(rows[i], key)), key)
  }

  /** The columns `DataFrame(rows)` takes: the keys of the first row, none for no rows. */
  function FirstRowKeys(rows: seq<Row>): seq<string> {
    if |rows| == 0 then [] else Keys(rows[0])
  }

  /** The row conditions the library filters on. */
  datatype RowTest =
    | NoneMissing(cols: seq<string>)               // dropna(subset=cols)
    | KeyEquals(key: string, k: Value)             // the rows of one groupby group
    | SortKeyEquals(cols: seq<string>, sk: seq<Value>) // the rows one sort key ties together
    | Positive(col: string)                        // df[df[col] > 0]

  predicate Passes(t: RowTest, r: Row) {
    match t
    case NoneMissing(cols) => forall c :: c in cols ==> !Get(r, c).Null?
    case Positive(col) => IsNumeric(Get(r, col)) && Num(Get(r, col)) > 0.0
    case KeyEquals(key, k) => Equiv(Get(r, key), k)
    case SortKeyEquals(cols, sk) => KeyEq(RowKey(r, cols), sk)
  }

  /** The rows that pass `t`, in their original order. */
  function Select(rows: seq<Row>, t: RowTest): (out: seq<Row>)
    ensures |out| <= |rows|
  {
    if |rows| == 0 then []
    else Select(rows[..|rows| - 1], t) + (if Passes(t, rows[|rows| - 1]) then [rows[|rows| - 1]] else [])
  }

  /** Select keeps exactly the rows that pass. */
  lemma {:induction false} SelectMembers(rows: seq<Row>, t: RowTest)
    ensures forall r :: r in Select(rows, t) <==> r in rows && Passes(t, r)
  {
    if |rows| > 0 {
      var front := rows[..|rows| - 1];
      assert rows == front + [rows[|rows| - 1]];
      SelectMembers(front, t);
    }
  }

  lemma SelectSnoc(rows: seq<Row>, r: Row, t: RowTest)
    ensures Select(rows + [r], t) == Select(rows, t) + (if Passes(t, r) then [r] else [])
  {
    assert (rows + [r])[..|rows|] == rows;
  }

  lemma {:induction false} SelectCons(r: Row, rows: seq<Row>, t: RowTest)
    ensures Select([r] + rows, t) == (if Passes(t, r) then [r] else []) + Select(rows, t)
  {
    if |rows| > 0 {
      SelectCons(r, rows[..|rows| - 1], t);
      SelectConsStep(r, rows, t);
    } else {
      assert ([r] + rows)[..0] == [];
    }
  }

  /** The inductive step of SelectCons: from the rows but the last to all of them. */
  lemma SelectConsStep(r: Row, rows: seq<Row>, t: RowTest)
    requires |rows| > 0
    requires Select([r] + rows[..|rows| - 1], t) == (if Passes(t, r) then [r] else []) + Select(rows[..|rows| - 1], t)
    ensures Select([r] + rows, t) == (if Passes(t, r) then [r] else []) + Select(rows, t)
  {
    var front := rows[..|rows| - 1];
    var last := rows[|rows| - 1];
    var head := if Passes(t, r) then [r] else [];
    var tail := if Passes(t, last) then [last] else [];
    ConsSplitLast(r, rows);
    SelectSnoc([r] + front, last, t);
    AppendAssoc(head, Select(front, t), tail);
  }

  /** `[row for row, keep in zip(rows, mask) if keep]`. */
  function MaskRows(rows: seq<Row>, mask: seq<Value>): (out: seq<Row>)
    ensures |out| <= |rows|
    ensures forall r :: r in out ==> exists i :: 0 <= i < |rows| && i < |mask| && rows[i] == r && Truthy(mask[i])
  {
    if |rows| == 0 || |mask| == 0 then []
    else
      var rest := MaskRows(rows[1..], mask[1..]);
      assert forall r :: r in rest ==> exists i :: 1 <= i < |rows| && i < |mask| && rows[i] == r && Truthy(mask[i]) by {
        forall r | r in rest ensures exists i :: 1 <= i < |rows| && i < |mask| && rows[i] == r && Truthy(mask[i]) {
          var i :| 0 <= i < |rows| - 1 && i < |mask| - 1 && rows[1..][i] == r && Truthy(mask[1..][i]);
          assert rows[i + 1] == r && Truthy(mask[i + 1]);
        }
      }
      (if Truthy(mask[0]) then [rows[0]] else []) + rest
  }

  /** The row loop of `df[mask]`: keep row i when mask entry i is truthy, stopping at the shorter of the two. */
  method MaskedRows(rows: seq<Row>, mask: seq<Value>) returns (filtered: seq<Row>)
    ensures filtered == MaskRows(rows, mask)
  {
    filtered := [];
    var i := 0;
    while i < |rows| && i < |mask|
      invariant 0 <= i <= |rows| && i <= |mask|
      invariant filtered + MaskRows(rows[i..], mask[i..]) == MaskRows(rows, mask)
    {
      MaskRowsStep(rows, mask, i);
      var kept := if Truthy(mask[i]) then [rows[i]] else [];
      AppendAssoc(filtered, kept, MaskRows(rows[i + 1..], mask[i + 1..]));
      filtered := filtered + kept;
      i := i + 1;
    }
    assert filtered + [] == filtered;
  }

  /** MaskRows from position i: row i when its mask entry is truthy, then the rest. */
  lemma MaskRowsStep(rows: seq<Row>, mask: seq<Value>, i: nat)
    requires i < |rows| && i < |mask|
    ensures MaskRows(rows[i..], mask[i..]) == (if Truthy(mask[i]) then [rows[i]] else []) + MaskRows(rows[i + 1..], mask[i + 1..])
  {
    assert rows[i..][1..] == rows[i + 1..] && mask[i..][1..] == mask[i + 1..];
  }

  /** A mask whose entries are truthy exactly for the rows that pass `t` filters like `t`. */
  lemma {:induction false} MaskIsSelect(rows: seq<Row>, mask: seq<Value>, t: RowTest)
    requires |mask| == |rows|
    requires forall i :: 0 <= i < |rows| ==> (Truthy(mask[i]) <==> Passes(t, rows[i]))
    ensures MaskRows(rows, mask) == Select(rows, t)
  {
    if |rows| > 0 {
      MaskIsSelect(rows[1..], mask[1..], t);
      SelectCons(rows[0], rows[1..], t);
      assert rows == [rows[0]] + rows[1..];
    }
  }

  /**
   * `df[df[col] > 0]`, where every value of the column is None or a number:
   * the rows holding a number above zero.
   */
  lemma PositiveMask(rows: seq<Row>, col: string)
    requires forall i :: 0 <= i < |rows| ==> Get(rows[i], col).Null? || IsNumeric(Get(rows[i], col))
    ensures forall i :: 0 <= i < |rows| && !Get(rows[i], col).Null? ==> SameClass(ColumnOf(rows, col).data[i], Int(0))
    ensures MaskRows(rows, GreaterThan(ColumnOf(rows, col), Int(0)).data) == Select(rows, Positive(col))
  {
    var s := ColumnOf(rows, col);
    forall i | 0 <= i < |rows| ensures Truthy(GreaterThan(s, Int(0)).data[i]) <==> Passes(Positive(col), rows[i]) {
      GreaterThanZero(s, i);
    }
    MaskIsSelect(rows, GreaterThan(s, Int(0)).data, Positive(col));
  }

  /**
   * What a `df[key] = value` assignment is given: a Series, another
   * iterable (a list or tuple; a string counts as a scalar), or a scalar.
   */
  datatype Assigned = ColumnValues(series: Series) | ListValues(items: seq<Value>) | Scalar(v: Value)

  /** The values the assignment writes: a Series' data, the iterable's items, or the scalar once per row. */
  function AssignedValues(value: Assigned, n: nat): (vals: seq<Value>)
    ensures value.ColumnValues? ==> vals == value.series.data
    ensures value.ListValues? ==> vals == value.items
    ensures value.Scalar? ==> |vals| == n && forall i :: 0 <= i < n ==> vals[i] == value.v
  {
    match value
    case ColumnValues(s) => s.data
    case ListValues(items) => items
    case Scalar(v) => seq(n, _ => v)
  }

  /**
   * The groups of `groupby(key)`: one per distinct key value (under `==`) in
   * order of first appearance, each holding the rows with that key value in
   * their original order.
   */
  function Groups(rows: seq<Row>, key: string): (gs: seq<(Value, seq<Row>)>)
    ensures |gs| == |FirstSeen(ColumnOf(rows, key).data)|
  {
    GroupsFor(rows, key, FirstSeen(ColumnOf(rows, key).data))
  }

  /** The group of each of the key values `ks`. */
  function GroupsFor(rows: seq<Row>, key: string, ks: seq<Value>): (gs: seq<(Value, seq<Row>)>)
    ensures |gs| == |ks|
    ensures forall i :: 0 <= i < |ks| ==> gs[i] == (ks[i], Select(rows, KeyEquals(key, ks[i])))
  {
    seq(|ks|, i requires 0 <= i < |ks| => (ks[i], Select(rows, KeyEquals(key, ks[i]))))
  }

  /**
   * `out` is `rows` read at the strictly increasing positions `idx`: a
   * subsequence that keeps the rows' original order.
   */
  predicate ReadInOrder(rows: seq<Row>, idx: seq<int>, out: seq<Row>) {
    |idx| == |out| &&
    (forall m :: 0 <= m < |idx| ==> 0 <= idx[m] < |rows| && out[m] == rows[idx[m]]) &&
    (forall m, n :: 0 <= m < n < |idx| ==> idx[m] < idx[n])
  }

  /** Positions read from all but the last row can be read from the whole table, and the last row after them. */
  lemma ReadInOrderSnoc(rows: seq<Row>, idx: seq<int>, out: seq<Row>, keep: bool)
    requires |rows| > 0 && ReadInOrder(rows[..|rows| - 1], idx, out)
    ensures var n := |rows| - 1;
      ReadInOrder(rows, idx + (if keep then [n] else []), out + (if keep then [rows[n]] else []))
  {
    var n := |rows| - 1;
    assert forall m :: 0 <= m < |idx| ==> idx[m] < n && rows[..n][idx[m]] == rows[idx[m]];
  }

  /** A filter is the subsequence of the rows at the positions of the rows that pass. */
  lemma {:induction false} SelectPositions(rows: seq<Row>, t: RowTest) returns (idx: seq<int>)
    ensures ReadInOrder(rows, idx, Select(rows, t))
    ensures forall i :: 0 <= i < |rows| ==> (i in idx <==> Passes(t, rows[i]))
    decreases |rows|
  {
    if |rows| == 0 {
      idx := [];
    } else {
      var n := |rows| - 1;
      var front := rows[..n];
      var before := SelectPositions(front, t);
      var keep := Passes(t, rows[n]);
      ReadInOrderSnoc(rows, before, Select(front, t), keep);
      assert Select(rows, t) == Select(front, t) + (if keep then [rows[n]] else []);
      idx := before + (if keep then [n] else []);
      assert forall m :: 0 <= m < |before| ==> before[m] < n;
      forall i | 0 <= i < |rows| ensures (i in idx <==> Passes(t, rows[i])) {
        if i < n {
          assert front[i] == rows[i];
          assert i in idx <==> i in before;
        }
      }
    }
  }

  /** `out` is the table read at the positions of exactly the rows whose key equals `k`, in order. */
  ghost predicate RowsOfKeyInOrder(rows: seq<Row>, key: string, k: Value, out: seq<Row>) {
    exists idx: seq<int> ::
      ReadInOrder(rows, idx, out) &&
      forall i :: 0 <= i < |rows| ==> (i in idx <==> Equiv(Get(rows[i], key), k))
  }

  /**
   * Each group holds exactly the rows whose key equals the group's key, and
   * holds them in the order they have in the table: it is the table read at
   * the increasing positions of those rows.
   */
  lemma GroupsKeepRowOrder(rows: seq<Row>, key: string)
    ensures forall g :: g in Groups(rows, key) ==> RowsOfKeyInOrder(rows, key, g.0, g.1)
  {
    forall g | g in Groups(rows, key) ensures RowsOfKeyInOrder(rows, key, g.0, g.1) {
      var test := KeyEquals(key, g.0);
      var idx := SelectPositions(rows, test);
      var gi :| 0 <= gi < |Groups(rows, key)| && Groups(rows, key)[gi] == g;
      assert g.1 == Select(rows, test);
      assert forall i :: 0 <= i < |rows| ==> Passes(test, rows[i]) == Equiv(Get(rows[i], key), g.0);
      assert ReadInOrder(rows, idx, g.1);
    }
  }

  /** No group is empty: each key value was taken from some row. */
  lemma GroupsNonEmpty(rows: seq<Row>, key: string)
    ensures forall g :: g in Groups(rows, key) ==> |g.1| > 0
  {
    var ks := FirstSeen(ColumnOf(rows, key).data);
    var gs := Groups(rows, key);
    FirstSeenSpec(ColumnOf(rows, key).data);
    forall g | g in gs ensures |g.1| > 0 {
      var i :| 0 <= i < |gs| && gs[i] == g;
      assert ks[i] in ColumnOf(rows, key).data;
      var j :| 0 <= j < |rows| && ColumnOf(rows, key).data[j] == ks[i];
      EquivIsEquivalence(ks[i], ks[i], ks[i]);
      assert Passes(KeyEquals(key, ks[i]), rows[j]);
      SelectMembers(rows, KeyEquals(key, ks[i]));
      assert rows[j] in g.1;
    }
  }

  /** The first group whose key is `==` to `v`, or |gs| (a dict lookup). */
  function IndexOfKey(gs: seq<(Value, seq<Row>)>, v: Value): (j: nat)
    ensures j <= |gs|
    ensures forall i :: 0 <= i < j ==> !Equiv(gs[i].0, v)
    ensures j < |gs| ==> Equiv(gs[j].0, v)
  {
    if |gs| == 0 then 0
    else if Equiv(gs[0].0, v) then 0
    else 1 + IndexOfKey(gs[1..], v)
  }

  /** One step of `groups.setdefault(row.get(key), []).append(row)`. */
  function AddToGroups(gs: seq<(Value, seq<Row>)>, r: Row, key: string): seq<(Value, seq<Row>)> {
    var j := IndexOfKey(gs, Get(r, key));
    if j < |gs| then gs[j := (gs[j].0, gs[j].1 + [r])] else gs + [(Get(r, key), [r])]
  }

  /** The key column after one more row: the old column plus that row's key. */
  lemma ColumnSnoc(rows: seq<Row>, r: Row, key: string)
    ensures ColumnOf(rows + [r], key).data == ColumnOf(rows, key).data + [Get(r, key)]
    ensures FirstSeen(ColumnOf(rows + [r], key).data) ==
      var ks := FirstSeen(ColumnOf(rows, key).data);
      if HasEquiv(ks, Get(r, key)) then ks else ks + [Get(r, key)]
  {
    var col' := ColumnOf(rows + [r], key).data;
    assert col' == ColumnOf(rows, key).data + [Get(r, key)];
    assert col'[..|col'| - 1] == ColumnOf(rows, key).data;
  }

  /** One more row changes exactly the groups whose key it matches. */
  lemma GroupsForSnoc(rows: seq<Row>, r: Row, key: string, ks: seq<Value>, i: nat)
    requires i < |ks|
    ensures Equiv(Get(r, key), ks[i]) ==> GroupsFor(rows + [r], key, ks)[i] == (ks[i], GroupsFor(rows, key, ks)[i].1 + [r])
    ensures !Equiv(Get(r, key), ks[i]) ==> GroupsFor(rows + [r], key, ks)[i] == GroupsFor(rows, key, ks)[i]
  {
    var t := KeyEquals(key, ks[i]);
    SelectSnoc(rows, r, t);
    if !Passes(t, r) {
      assert Select(rows, t) + [] == Select(rows, t);
    }
  }

  /** Of pairwise different keys, a value equal to one is equal to no other. */
  lemma OnlyOneKeyMatches(ks: seq<Value>, j: nat, i: nat, v: Value)
    requires EquivDistinct(ks) && j < |ks| && i < |ks| && i != j && Equiv(ks[j], v)
    ensures !Equiv(v, ks[i])
  {
    assert !Equiv(ks[j], ks[i]) && !Equiv(ks[i], ks[j]);
    EquivIsEquivalence(ks[j], v, ks[i]);
  }

  /** A row whose key value is already a group key joins that group. */
  lemma GroupsSnocKnown(rows: seq<Row>, r: Row, key: string, j: nat)
    requires j == IndexOfKey(Groups(rows, key), Get(r, key)) && j < |Groups(rows, key)|
    ensures Groups(rows + [r], key) == Groups(rows, key)[j := (Groups(rows, key)[j].0, Groups(rows, key)[j].1 + [r])]
  {
    var v := Get(r, key);
    var ks := FirstSeen(ColumnOf(rows, key).data);
    FirstSeenSpec(ColumnOf(rows, key).data);
    var gs := GroupsFor(rows, key, ks);
    assert Equiv(ks[j], v);
    assert HasEquiv(ks, v);
    ColumnSnoc(rows, r, key);
    assert Groups(rows + [r], key) == GroupsFor(rows + [r], key, ks);
    var gs' := GroupsFor(rows + [r], key, ks);
    forall i | 0 <= i < |ks|
      ensures gs'[i] == gs[j := (gs[j].0, gs[j].1 + [r])][i]
    {
      GroupsForSnoc(rows, r, key, ks, i);
      if i == j {
        assert gs'[i] == (ks[i], gs[i].1 + [r]);
      } else {
        OnlyOneKeyMatches(ks, j, i, v);
        assert gs'[i] == gs[i];
      }
    }
    assert |gs'| == |gs[j := (gs[j].0, gs[j].1 + [r])]|;
  }

  /** A row with a new key value opens a new group at the end. */
  lemma GroupsSnocNew(rows: seq<Row>, r: Row, key: string)
    requires IndexOfKey(Groups(rows, key), Get(r, key)) == |Groups(rows, key)|
    ensures Groups(rows + [r], key) == Groups(rows, key) + [(Get(r, key), [r])]
  {
    var v := Get(r, key);
    var ks := FirstSeen(ColumnOf(rows, key).data);
    NewKeyNotSeen(rows, r, key);
    ColumnSnoc(rows, r, key);
    assert Groups(rows + [r], key) == GroupsFor(rows + [r], key, ks + [v]);
    NoRowHasNewKey(rows, key, v);
    GroupsForExtend(rows, r, key, ks);
  }

  /** A key value that no group key equals is equal to none of the key values seen. */
  lemma NewKeyNotSeen(rows: seq<Row>, r: Row, key: string)
    requires IndexOfKey(Groups(rows, key), Get(r, key)) == |Groups(rows, key)|
    ensures !HasEquiv(FirstSeen(ColumnOf(rows, key).data), Get(r, key))
  {
    var ks := FirstSeen(ColumnOf(rows, key).data);
    var gs := Groups(rows, key);
    forall i | 0 <= i < |ks| ensures !Equiv(ks[i], Get(r, key)) {
      assert gs[i].0 == ks[i];
    }
  }

  /** A row with a key value new to `ks`, and matched by no earlier row, adds one group holding just itself. */
  lemma GroupsForExtend(rows: seq<Row>, r: Row, key: string, ks: seq<Value>)
    requires !HasEquiv(ks, Get(r, key))
    requires Select(rows, KeyEquals(key, Get(r, key))) == []
    ensures GroupsFor(rows + [r], key, ks + [Get(r, key)]) == GroupsFor(rows, key, ks) + [(Get(r, key), [r])]
  {
    var v := Get(r, key);
    var gs := GroupsFor(rows, key, ks);
    var gs' := GroupsFor(rows + [r], key, ks + [v]);
    forall i | 0 <= i < |ks| ensures gs'[i] == gs[i] {
      GroupsForSnoc(rows, r, key, ks + [v], i);
      assert GroupsFor(rows, key, ks + [v])[i] == gs[i];
      EquivIsEquivalence(v, ks[i], v);
    }
    GroupsForSnoc(rows, r, key, ks + [v], |ks|);
    EquivIsEquivalence(v, v, v);
    assert GroupsFor(rows, key, ks + [v])[|ks|] == (v, []);
    assert gs'[|ks|] == (v, [] + [r]);
    assert [] + [r] == [r];
    assert gs' == gs + [(v, [r])];
  }

  /** A key value equal to no group key has no rows. */
  lemma NoRowHasNewKey(rows: seq<Row>, key: string, v: Value)
    requires !HasEquiv(FirstSeen(ColumnOf(rows, key).data), v)
    ensures Select(rows, KeyEquals(key, v)) == []
  {
    var col := ColumnOf(rows, key).data;
    var ks := FirstSeen(col);
    FirstSeenSpec(col);
    var none := Select(rows, KeyEquals(key, v));
    SelectMembers(rows, KeyEquals(key, v));
    if |none| > 0 {
      assert none[0] in rows;
      var p :| 0 <= p < |rows| && rows[p] == none[0];
      assert HasEquiv(ks, col[p]);
      var m :| 0 <= m < |ks| && Equiv(ks[m], col[p]);
      EquivIsEquivalence(ks[m], col[p], v);
    }
  }

  /** Filling the groups row by row, as the dict does, yields Groups. */
  lemma GroupsSnoc(rows: seq<Row>, r: Row, key: string)
    ensures Groups(rows + [r], key) == AddToGroups(Groups(rows, key), r, key)
  {
    var j := IndexOfKey(Groups(rows, key), Get(r, key));
    if j < |Groups(rows, key)| {
      GroupsSnocKnown(rows, r, key, j);
    } else {
      GroupsSnocNew(rows, r, key);
    }
  }

  /**
   * groupby partitions the rows: the group keys are pairwise different, every
   * row lies in exactly one group, and that group's key is `==` to the row's
   * key value.
   */
  lemma GroupsPartition(rows: seq<Row>, key: string)
    ensures var gs := Groups(rows, key);
      (forall i, j :: 0 <= i < j < |gs| ==> !Equiv(gs[i].0, gs[j].0)) &&
      (forall r :: r in rows ==> exists i :: 0 <= i < |gs| && r in gs[i].1) &&
      (forall r, i :: r in rows && 0 <= i < |gs| ==> (r in gs[i].1 <==> Equiv(Get(r, key), gs[i].0))) &&
      (forall r, i, j :: 0 <= i < |gs| && 0 <= j < |gs| && r in gs[i].1 && r in gs[j].1 ==> i == j)
  {
    GroupKeysDistinct(rows, key);
    GroupMembers(rows, key);
    GroupsCover(rows, key);
    GroupsDisjoint(rows, key);
  }

  /** Group keys are pairwise different under `==`. */
  lemma GroupKeysDistinct(rows: seq<Row>, key: string)
    ensures var gs := Groups(rows, key);
      forall i, j :: 0 <= i < j < |gs| ==> !Equiv(gs[i].0, gs[j].0)
  {
    FirstSeenSpec(ColumnOf(rows, key).data);
  }

  /** A group holds exactly the rows whose key value is `==` to the group key. */
  lemma GroupMembers(rows: seq<Row>, key: string)
    ensures var gs := Groups(rows, key);
      forall i :: 0 <= i < |gs| ==> forall r :: r in gs[i].1 <==> r in rows && Equiv(Get(r, key), gs[i].0)
  {
    var gs := Groups(rows, key);
    forall i | 0 <= i < |gs| ensures forall r :: r in gs[i].1 <==> r in rows && Equiv(Get(r, key), gs[i].0) {
      SelectMembers(rows, KeyEquals(key, gs[i].0));
    }
  }

  /** Every row lands in some group. */
  lemma GroupsCover(rows: seq<Row>, key: string)
    ensures var gs := Groups(rows, key);
      forall r :: r in rows ==> exists i :: 0 <= i < |gs| && r in gs[i].1
  {
    var gs := Groups(rows, key);
    var col := ColumnOf(rows, key).data;
    FirstSeenSpec(col);
    GroupMembers(rows, key);
    forall r | r in rows ensures exists i :: 0 <= i < |gs| && r in gs[i].1 {
      var p :| 0 <= p < |rows| && rows[p] == r;
      var m :| 0 <= m < |gs| && Equiv(FirstSeen(col)[m], col[p]);
      assert r in gs[m].1;
    }
  }

  /** No row lands in two groups. */
  lemma GroupsDisjoint(rows: seq<Row>, key: string)
    ensures var gs := Groups(rows, key);
      forall r, i, j :: 0 <= i < |gs| && 0 <= j < |gs| && r in gs[i].1 && r in gs[j].1 ==> i == j
  {
    var gs := Groups(rows, key);
    GroupKeysDistinct(rows, key);
    GroupMembers(rows, key);
    forall r, i, j | 0 <= i < |gs| && 0 <= j < |gs| && r in gs[i].1 && r in gs[j].1 ensures i == j {
      assert Equiv(gs[i].0, gs[j].0) && Equiv(gs[j].0, gs[i].0);
    }
  }

  /**
   * Groups come in order of first appearance: for two groups i < j, the first
   * row of group i comes before every row of group j.
   */
  lemma {:induction false} FirstSeenInOrderOfAppearance(vals: seq<Value>, i: nat, j: nat)
    requires i < j < |FirstSeen(vals)|
    ensures exists p :: 0 <= p < |vals| && vals[p] == FirstSeen(vals)[i] &&
                        forall q :: 0 <= q <= p ==> !Equiv(vals[q], FirstSeen(vals)[j])
  {
    var front := vals[..|vals| - 1];
    if j < |FirstSeen(front)| {
      FirstSeenInOrderOfAppearance(front, i, j);
      FirstSeenOrderEarlier(vals, i, j);
    } else {
      FirstSeenOrderNew(vals, i, j);
    }
  }

  /** FirstSeenInOrderOfAppearance when both groups already occur before the last value. */
  lemma FirstSeenOrderEarlier(vals: seq<Value>, i: nat, j: nat)
    requires |vals| > 0 && i < j < |FirstSeen(vals[..|vals| - 1])|
    requires var front := vals[..|vals| - 1]; var d := FirstSeen(front);
      exists p :: 0 <= p < |front| && front[p] == d[i] && forall q :: 0 <= q <= p ==> !Equiv(front[q], d[j])
    ensures exists p :: 0 <= p < |vals| && vals[p] == FirstSeen(vals)[i] &&
                        forall q :: 0 <= q <= p ==> !Equiv(vals[q], FirstSeen(vals)[j])
  {
    var front := vals[..|vals| - 1];
    var d := FirstSeen(front);
    var p :| 0 <= p < |front| && front[p] == d[i] && forall q :: 0 <= q <= p ==> !Equiv(front[q], d[j]);
    assert FirstSeen(vals)[i] == d[i] && FirstSeen(vals)[j] == d[j];
    assert vals[p] == FirstSeen(vals)[i];
    forall q | 0 <= q <= p ensures !Equiv(vals[q], FirstSeen(vals)[j]) { assert vals[q] == front[q]; }
  }

  /** FirstSeenInOrderOfAppearance when the later group starts at the last value. */
  lemma FirstSeenOrderNew(vals: seq<Value>, i: nat, j: nat)
    requires |vals| > 0 && i < j < |FirstSeen(vals)| && j >= |FirstSeen(vals[..|vals| - 1])|
    ensures exists p :: 0 <= p < |vals| && vals[p] == FirstSeen(vals)[i] &&
                        forall q :: 0 <= q <= p ==> !Equiv(vals[q], FirstSeen(vals)[j])
  {
    var front := vals[..|vals| - 1];
    var last := vals[|vals| - 1];
    var d := FirstSeen(front);
    FirstSeenSpec(front);
    assert FirstSeen(vals) == d + [last] && FirstSeen(vals)[j] == last;
    assert d[i] in front;
    var p :| 0 <= p < |front| && front[p] == d[i];
    assert vals[p] == FirstSeen(vals)[i];
    forall q | 0 <= q <= p ensures !Equiv(vals[q], last) {
      assert vals[q] == front[q];
      var m :| 0 <= m < |d| && Equiv(d[m], front[q]);
      assert !Equiv(d[m], last);
    }
  }

  /** All pairs of sort keys of `rows` can be compared. */
  predicate KeysComparable(rows: seq<Row>, keyCols: seq<string>) {
    forall a, b :: a in rows && b in rows ==> Comparable(RowKey(a, keyCols), RowKey(b, keyCols))
  }

  /** Non-decreasing in the sort key. */
  predicate SortedBy(rows: seq<Row>, keyCols: seq<string>) {
    forall i, j :: 0 <= i < j < |rows| ==>
      Comparable(RowKey(rows[j], keyCols), RowKey(rows[i], keyCols)) && !KeyLess(RowKey(rows[j], keyCols), RowKey(rows[i], keyCols))
  }

  /** Insert `x` after every element whose key is not greater than its own (a stable insertion). */
  function InsertStable(s: seq<Row>, x: Row, keyCols: seq<string>): (out: seq<Row>)
    requires InsertableInto(s, x, keyCols)
    ensures multiset(out) == multiset(s) + multiset{x}
  {
    if |s| == 0 then [x]
    else
      var front := s[..|s| - 1];
      var last := s[|s| - 1];
      assert s == front + [last];
      if KeyLess(RowKey(x, keyCols), RowKey(last, keyCols)) then InsertStable(front, x, keyCols) + [last]
      else s + [x]
  }

  /** What Python's stable `sorted(rows, key=...)` returns, as a repeated stable insertion. */
  function SortedRows(rows: seq<Row>, keyCols: seq<string>): (out: seq<Row>)
    requires KeysComparable(rows, keyCols)
    ensures multiset(out) == multiset(rows)
  {
    if |rows| == 0 then []
    else
      var front := rows[..|rows| - 1];
      assert rows == front + [rows[|rows| - 1]];
      assert forall e :: e in front ==> e in rows;
      var s := SortedRows(front, keyCols);
      assert forall e :: e in s ==> e in multiset(front);
      InsertStable(s, rows[|rows| - 1], keyCols)
  }

  /** `x` can be compared with every row of `s`. */
  predicate InsertableInto(s: seq<Row>, x: Row, keyCols: seq<string>) {
    forall e :: e in s ==> Comparable(RowKey(x, keyCols), RowKey(e, keyCols))
  }

  /** No row of `s` sorts after `y`. */
  predicate NoneAfter(s: seq<Row>, y: Row, keyCols: seq<string>) {
    forall e :: e in s ==> Comparable(RowKey(y, keyCols), RowKey(e, keyCols)) && !KeyLess(RowKey(y, keyCols), RowKey(e, keyCols))
  }

  /** Appending a row no smaller than any other keeps a sequence sorted. */
  lemma SortedSnoc(s: seq<Row>, y: Row, keyCols: seq<string>)
    requires SortedBy(s, keyCols) && NoneAfter(s, y, keyCols)
    ensures SortedBy(s + [y], keyCols)
  {
    var out := s + [y];
    forall i, j | 0 <= i < j < |out|
      ensures Comparable(RowKey(out[j], keyCols), RowKey(out[i], keyCols)) && !KeyLess(RowKey(out[j], keyCols), RowKey(out[i], keyCols))
    {
      if j == |s| { assert out[i] == s[i] && s[i] in s; } else { assert out[i] == s[i] && out[j] == s[j]; }
    }
  }

  /** A row not smaller than the last of a sorted sequence can be appended. */
  lemma AppendAfterLast(s: seq<Row>, x: Row, keyCols: seq<string>)
    requires |s| > 0 && InsertableInto(s, x, keyCols) && SortedBy(s, keyCols)
    requires !KeyLess(RowKey(x, keyCols), RowKey(s[|s| - 1], keyCols))
    ensures SortedBy(s + [x], keyCols)
  {
    var kx := RowKey(x, keyCols);
    var kl := RowKey(s[|s| - 1], keyCols);
    forall e | e in s ensures Comparable(kx, RowKey(e, keyCols)) && !KeyLess(kx, RowKey(e, keyCols)) {
      var p :| 0 <= p < |s| && s[p] == e;
      if p < |s| - 1 {
        KeyLessStrictWeakOrder(RowKey(e, keyCols), kl, kx);
      }
    }
    SortedSnoc(s, x, keyCols);
  }

  /** Dropping the last row keeps a sequence sorted and `x` insertable. */
  lemma DropLast(s: seq<Row>, x: Row, keyCols: seq<string>)
    requires |s| > 0 && InsertableInto(s, x, keyCols) && SortedBy(s, keyCols)
    ensures InsertableInto(s[..|s| - 1], x, keyCols) && SortedBy(s[..|s| - 1], keyCols)
  {
    var front := s[..|s| - 1];
    assert forall e :: e in front ==> e in s;
    forall i, j | 0 <= i < j < |front|
      ensures Comparable(RowKey(front[j], keyCols), RowKey(front[i], keyCols)) && !KeyLess(RowKey(front[j], keyCols), RowKey(front[i], keyCols))
    {
      assert front[i] == s[i] && front[j] == s[j];
    }
  }

  /** A row smaller than the last of a sorted sequence goes in front of it. */
  lemma InsertBeforeLast(s: seq<Row>, x: Row, keyCols: seq<string>)
    requires |s| > 0 && InsertableInto(s, x, keyCols) && SortedBy(s, keyCols)
    requires KeyLess(RowKey(x, keyCols), RowKey(s[|s| - 1], keyCols))
    requires InsertableInto(s[..|s| - 1], x, keyCols)
    requires SortedBy(InsertStable(s[..|s| - 1], x, keyCols), keyCols)
    ensures SortedBy(InsertStable(s, x, keyCols), keyCols)
  {
    var front := s[..|s| - 1];
    var last := s[|s| - 1];
    var mid := InsertStable(front, x, keyCols);
    InsertStableBelow(s, x, keyCols);
    NoneAfterLast(s, x, keyCols);
    SortedSnoc(mid, last, keyCols);
  }

  /** A row smaller than the last is inserted into the rest, and the last row stays last. */
  lemma InsertStableBelow(s: seq<Row>, x: Row, keyCols: seq<string>)
    requires |s| > 0 && InsertableInto(s, x, keyCols)
    requires KeyLess(RowKey(x, keyCols), RowKey(s[|s| - 1], keyCols))
    requires InsertableInto(s[..|s| - 1], x, keyCols)
    ensures InsertStable(s, x, keyCols) == InsertStable(s[..|s| - 1], x, keyCols) + [s[|s| - 1]]
  {
  }

  /** Inserting below the last row of a sorted sequence: no row of the rest sorts after that last row. */
  lemma NoneAfterLast(s: seq<Row>, x: Row, keyCols: seq<string>)
    requires |s| > 0 && InsertableInto(s, x, keyCols) && SortedBy(s, keyCols)
    requires KeyLess(RowKey(x, keyCols), RowKey(s[|s| - 1], keyCols))
    requires InsertableInto(s[..|s| - 1], x, keyCols)
    ensures NoneAfter(InsertStable(s[..|s| - 1], x, keyCols), s[|s| - 1], keyCols)
  {
    var front := s[..|s| - 1];
    var kl := RowKey(s[|s| - 1], keyCols);
    var mid := InsertStable(front, x, keyCols);
    InsertedBelowLast(s, x, keyCols);
    forall e | e in mid ensures Comparable(kl, RowKey(e, keyCols)) && !KeyLess(kl, RowKey(e, keyCols)) {
      InsertStableMember(front, x, keyCols, e);
      if e != x {
        FrontBelowLast(s, keyCols, e);
      }
    }
  }

  /** A row of a stable insertion is the inserted row or one of the others. */
  lemma InsertStableMember(s: seq<Row>, x: Row, keyCols: seq<string>, e: Row)
    requires InsertableInto(s, x, keyCols) && e in InsertStable(s, x, keyCols)
    ensures e == x || e in s
  {
    assert e in multiset(InsertStable(s, x, keyCols));
  }

  /** In a sorted sequence, no row before the last sorts after it. */
  lemma FrontBelowLast(s: seq<Row>, keyCols: seq<string>, e: Row)
    requires SortedBy(s, keyCols) && |s| > 0 && e in s[..|s| - 1]
    ensures Comparable(RowKey(s[|s| - 1], keyCols), RowKey(e, keyCols))
    ensures !KeyLess(RowKey(s[|s| - 1], keyCols), RowKey(e, keyCols))
  {
    var p :| 0 <= p < |s| - 1 && s[..|s| - 1][p] == e;
    assert s[p] == e;
    SortedBelowLast(s, keyCols, p);
  }

  /** The inserted row, smaller than the last row, does not sort after it. */
  lemma InsertedBelowLast(s: seq<Row>, x: Row, keyCols: seq<string>)
    requires |s| > 0 && InsertableInto(s, x, keyCols)
    requires KeyLess(RowKey(x, keyCols), RowKey(s[|s| - 1], keyCols))
    ensures Comparable(RowKey(s[|s| - 1], keyCols), RowKey(x, keyCols))
    ensures !KeyLess(RowKey(s[|s| - 1], keyCols), RowKey(x, keyCols))
  {
    var kx := RowKey(x, keyCols);
    var kl := RowKey(s[|s| - 1], keyCols);
    assert s[|s| - 1] in s;
    KeyLessStrictWeakOrder(kx, kl, kl);
  }

  /** In a sorted sequence, no earlier row sorts after the last one. */
  lemma SortedBelowLast(s: seq<Row>, keyCols: seq<string>, p: nat)
    requires SortedBy(s, keyCols) && p < |s| - 1
    ensures Comparable(RowKey(s[|s| - 1], keyCols), RowKey(s[p], keyCols))
    ensures !KeyLess(RowKey(s[|s| - 1], keyCols), RowKey(s[p], keyCols))
  {
  }

  /** Stable insertion keeps a sorted sequence sorted. */
  lemma {:induction false} InsertStableSorted(s: seq<Row>, x: Row, keyCols: seq<string>)
    requires InsertableInto(s, x, keyCols) && SortedBy(s, keyCols)
    ensures SortedBy(InsertStable(s, x, keyCols), keyCols)
  {
    if |s| > 0 {
      assert s[|s| - 1] in s;
      if KeyLess(RowKey(x, keyCols), RowKey(s[|s| - 1], keyCols)) {
        DropLast(s, x, keyCols);
        InsertStableSorted(s[..|s| - 1], x, keyCols);
        InsertBeforeLast(s, x, keyCols);
      } else {
        AppendAfterLast(s, x, keyCols);
        assert s == s[..|s| - 1] + [s[|s| - 1]];
        assert InsertStable(s, x, keyCols) == s + [x];
      }
    }
  }

  /** Stable insertion puts `x` after every row whose key is `==` to its own. */
  lemma {:induction false} InsertStableTies(s: seq<Row>, x: Row, keyCols: seq<string>, sk: seq<Value>)
    requires InsertableInto(s, x, keyCols)
    ensures Select(InsertStable(s, x, keyCols), SortKeyEquals(keyCols, sk)) ==
            Select(s, SortKeyEquals(keyCols, sk)) + (if Passes(SortKeyEquals(keyCols, sk), x) then [x] else [])
  {
    var t := SortKeyEquals(keyCols, sk);
    if |s| == 0 {
      assert [x] == [] + [x];
      SelectSnoc([], x, t);
    } else {
      var front := s[..|s| - 1];
      var last := s[|s| - 1];
      var kx := RowKey(x, keyCols);
      var kl := RowKey(last, keyCols);
      assert s == front + [last];
      assert Comparable(kx, kl);
      SelectSnoc(front, last, t);
      if KeyLess(kx, kl) {
        assert forall e :: e in front ==> e in s;
        InsertStableTies(front, x, keyCols, sk);
        TiesBelowLast(s, x, keyCols, sk);
      } else {
        SelectSnoc(s, x, t);
      }
    }
  }

  /** Inductive step of InsertStableTies when `x` goes in front of the last row. */
  lemma TiesBelowLast(s: seq<Row>, x: Row, keyCols: seq<string>, sk: seq<Value>)
    requires |s| > 0 && InsertableInto(s, x, keyCols) && InsertableInto(s[..|s| - 1], x, keyCols)
    requires KeyLess(RowKey(x, keyCols), RowKey(s[|s| - 1], keyCols))
    requires Select(InsertStable(s[..|s| - 1], x, keyCols), SortKeyEquals(keyCols, sk)) ==
             Select(s[..|s| - 1], SortKeyEquals(keyCols, sk)) + (if Passes(SortKeyEquals(keyCols, sk), x) then [x] else [])
    ensures Select(InsertStable(s, x, keyCols), SortKeyEquals(keyCols, sk)) ==
            Select(s, SortKeyEquals(keyCols, sk)) + (if Passes(SortKeyEquals(keyCols, sk), x) then [x] else [])
  {
    var t := SortKeyEquals(keyCols, sk);
    var front := s[..|s| - 1];
    var last := s[|s| - 1];
    var mid := InsertStable(front, x, keyCols);
    InsertStableBelow(s, x, keyCols);
    SelectSnoc(mid, last, t);
    assert last in s;
    NotBothTied(x, last, keyCols, sk);
    SwapTies(Select(front, t), x, last, t);
  }

  /** At most one of two rows passes `t`, so the order they are appended in does not matter. */
  lemma SwapTies(a: seq<Row>, x: Row, y: Row, t: RowTest)
    requires !(Passes(t, x) && Passes(t, y))
    ensures a + (if Passes(t, x) then [x] else []) + (if Passes(t, y) then [y] else []) ==
            a + (if Passes(t, y) then [y] else []) + (if Passes(t, x) then [x] else [])
  {
  }

  /** Two rows whose keys are strictly ordered cannot both tie with the same key. */
  lemma NotBothTied(x: Row, y: Row, keyCols: seq<string>, sk: seq<Value>)
    requires Comparable(RowKey(x, keyCols), RowKey(y, keyCols))
    requires KeyLess(RowKey(x, keyCols), RowKey(y, keyCols))
    ensures !(Passes(SortKeyEquals(keyCols, sk), x) && Passes(SortKeyEquals(keyCols, sk), y))
  {
    var t := SortKeyEquals(keyCols, sk);
    var kx := RowKey(x, keyCols);
    var ky := RowKey(y, keyCols);
    if Passes(t, x) && Passes(t, y) {
      assert KeyEq(kx, ky) by {
        forall i | 0 <= i < |kx| ensures Equiv(kx[i], ky[i]) { EquivIsEquivalence(kx[i], sk[i], ky[i]); }
      }
      KeyLessStrictWeakOrder(kx, ky, ky);
    }
  }

  /**
   * SortedRows is the stable sort: a permutation of the rows, non-decreasing
   * in the sort key, and rows with equal keys keep their input order.
   */
  lemma {:induction false} SortedRowsSpec(rows: seq<Row>, keyCols: seq<string>)
    requires KeysComparable(rows, keyCols)
    ensures multiset(SortedRows(rows, keyCols)) == multiset(rows)
    ensures SortedBy(SortedRows(rows, keyCols), keyCols)
    ensures forall sk :: Select(SortedRows(rows, keyCols), SortKeyEquals(keyCols, sk)) == Select(rows, SortKeyEquals(keyCols, sk))
  {
    if |rows| > 0 {
      var front := rows[..|rows| - 1];
      var last := rows[|rows| - 1];
      SplitLast(rows);
      assert forall e :: e in front ==> e in rows;
      SortedRowsSpec(front, keyCols);
      var s := SortedRows(front, keyCols);
      LastInsertable(rows, keyCols);
      InsertStableSorted(s, last, keyCols);
      forall sk ensures Select(SortedRows(rows, keyCols), SortKeyEquals(keyCols, sk)) == Select(rows, SortKeyEquals(keyCols, sk)) {
        InsertStableTies(s, last, keyCols, sk);
        SelectSnoc(front, last, SortKeyEquals(keyCols, sk));
      }
    }
  }

  /** The last row can be inserted into the sorted rows before it. */
  lemma LastInsertable(rows: seq<Row>, keyCols: seq<string>)
    requires |rows| > 0 && KeysComparable(rows, keyCols)
    requires KeysComparable(rows[..|rows| - 1], keyCols)
    ensures InsertableInto(SortedRows(rows[..|rows| - 1], keyCols), rows[|rows| - 1], keyCols)
  {
    var front := rows[..|rows| - 1];
    var last := rows[|rows| - 1];
    forall e | e in SortedRows(front, keyCols) ensures Comparable(RowKey(last, keyCols), RowKey(e, keyCols)) {
      assert e in multiset(front);
      assert e in front && last in rows;
    }
  }

  /** The row loop of `df[list_of_columns]`: each row narrowed to the listed keys. */
  method ProjectRows(input: seq<Row>, keys: seq<string>) returns (out: seq<Row>)
    ensures |out| == |input|
    ensures forall j :: 0 <= j < |input| ==> out[j] == Project(input[j], keys)
  {
    out := [];
    var i := 0;
    while i < |input|
      invariant 0 <= i <= |input| && |out| == i
      invariant forall j :: 0 <= j < i ==> out[j] == Project(input[j], keys)
    {
      out := out + [Project(input[i], keys)];
      i := i + 1;
    }
  }

  /** Row `i` has a subset key `==` to that of an earlier row. */
  predicate KeySeen(rows: seq<Row>, subset: seq<string>, i: int)
    requires 0 <= i < |rows|
  {
    exists p :: 0 <= p < i && KeyEq(RowKey(rows[p], subset), RowKey(rows[i], subset))
  }

  /** Looking row `i`'s key up among the keys of the rows before it decides KeySeen. */
  lemma SeenKeys(input: seq<Row>, subset: seq<string>, seen: seq<seq<Value>>, i: nat)
    requires i < |input| && |seen| == i
    requires forall j :: 0 <= j < i ==> seen[j] == RowKey(input[j], subset)
    ensures (exists p :: 0 <= p < |seen| && KeyEq(seen[p], RowKey(input[i], subset))) == KeySeen(input, subset, i)
  {
  }

  /** Adding row `i`'s key to the keys of the rows before it. */
  lemma SeenSnoc(input: seq<Row>, subset: seq<string>, seen: seq<seq<Value>>, i: nat)
    requires i < |input| && |seen| == i
    requires forall j :: 0 <= j < i ==> seen[j] == RowKey(input[j], subset)
    ensures forall j :: 0 <= j < i + 1 ==> (seen + [RowKey(input[i], subset)])[j] == RowKey(input[j], subset)
  {
  }

  /** The row loop of `duplicated`: each row's key is looked up among the keys seen so far, then added to them. */
  method DuplicateFlags(input: seq<Row>, subset: seq<string>) returns (fs: seq<Value>)
    ensures |fs| == |input|
    ensures forall i :: 0 <= i < |input| ==> fs[i] == Bool(KeySeen(input, subset, i))
  {
    var seen: seq<seq<Value>> := [];
    fs := [];
    var i := 0;
    while i < |input|
      invariant 0 <= i <= |input| && |seen| == i && |fs| == i
      invariant forall j :: 0 <= j < i ==> seen[j] == RowKey(input[j], subset)
      invariant forall j :: 0 <= j < i ==> fs[j] == Bool(KeySeen(input, subset, j))
    {
      var key := RowKey(input[i], subset);
      var found := exists p :: 0 <= p < |seen| && KeyEq(seen[p], key);
      SeenKeys(input, subset, seen, i);
      SeenSnoc(input, subset, seen, i);
      fs := fs + [Bool(found)];
      seen := seen + [key];
      i := i + 1;
    }
  }

  class DataFrame {
    var rows: seq<Row>
    var columns: seq<string>

    /** `DataFrame(data)`: the rows as given; the columns are the keys of the first row. */
    constructor (data: seq<Row>)
      ensures rows == data && columns == FirstRowKeys(data)
    {
      rows := data;
      columns := FirstRowKeys(data);
    }

    /** `df.copy()`: a new frame over copies of the rows (so its columns come from the first row again). */
    method Copy() returns (r: DataFrame)
      ensures fresh(r) && r.rows == rows && r.columns == FirstRowKeys(rows)
    {
      r := new DataFrame(rows);
    }

    /** `df[key]` for a column name. */
    function Column(key: string): (s: Series)
      reads this
      ensures s.name == key && |s.data| == |rows|
      ensures forall i :: 0 <= i < |rows| ==> s.data[i] == Get(rows[i], key)
    {
      ColumnOf(rows, key)
    }

    /** `df.drop(columns=cols)`: every row loses the entries under `cols`. */
    method Drop(cols: seq<string>) returns (r: DataFrame)
      ensures fresh(r) && r.rows == DropColumns(rows, cols) && r.columns == FirstRowKeys(r.rows)
    {
      var newRows: seq<Row> := [];
      var i := 0;
      while i < |rows|
        invariant 0 <= i <= |rows| && |newRows| == i
        invariant forall j :: 0 <= j < i ==> newRows[j] == DropKeys(rows[j], cols)
      {
        newRows := newRows + [DropKeys(rows[i], cols)];
        i := i + 1;
      }
      assert newRows == DropColumns(rows, cols);
      r := new DataFrame(newRows);
    }

    /** `df.dropna(subset)`: the rows with a value under every column of `subset`, in order. */
    method DropNa(subset: seq<string>) returns (r: DataFrame)
      ensures fresh(r) && r.rows == Select(rows, NoneMissing(subset)) && r.columns == FirstRowKeys(r.rows)
    {
      var newRows: seq<Row> := [];
      var i := 0;
      while i < |rows|
        invariant 0 <= i <= |rows|
        invariant newRows == Select(rows[..i], NoneMissing(subset))
      {
        SelectSnoc(rows[..i], rows[i], NoneMissing(subset));
        assert rows[..i + 1] == rows[..i] + [rows[i]];
        if Passes(NoneMissing(subset), rows[i]) {
          newRows := newRows + [rows[i]];
        }
        i := i + 1;
      }
      assert rows[..|rows|] == rows;
      r := new DataFrame(newRows);
    }

    /** `df[mask]` for a Series: the rows whose mask entry is truthy, in order. */
    method Where(mask: Series) returns (r: DataFrame)
      ensures fresh(r) && r.rows == MaskRows(rows, mask.data) && r.columns == FirstRowKeys(r.rows)
    {
      var filtered := MaskedRows(rows, mask.data);
      r := new DataFrame(filtered);
    }

    /** `df[keys]` for a list of names: every row cut down to `keys`, in that order. */
    method SelectColumns(keys: seq<string>) returns (r: DataFrame)
      ensures fresh(r) && |r.rows| == |rows| && r.columns == FirstRowKeys(r.rows)
      ensures forall i :: 0 <= i < |rows| ==> r.rows[i] == Project(rows[i], keys)
    {
      var subsetRows := ProjectRows(rows, keys);
      r := new DataFrame(subsetRows);
    }

    /**
     * `df[key] = value`: value i goes into row i (a scalar into every row);
     * on a frame without rows, one new row per value; the name is added to
     * the columns when it is new.
     */
    method SetItem(key: string, value: Assigned)
      modifies this
      ensures var vals := AssignedValues(value, |old(rows)|);
        if |old(rows)| == 0 then
          |rows| == |vals| && forall i :: 0 <= i < |vals| ==> rows[i] == [(key, vals[i])]
        else
          |rows| == |old(rows)| &&
          forall i :: 0 <= i < |rows| ==> rows[i] == if i < |vals| then Set(old(rows)[i], key, vals[i]) else old(rows)[i]
      ensures columns == if key in old(columns) then old(columns) else old(columns) + [key]
    {
      var vals := AssignedValues(value, |rows|);
      if |rows| == 0 {
        var i := 0;
        while i < |vals|
          invariant 0 <= i <= |vals| && |rows| == i && columns == old(columns)
          invariant forall j :: 0 <= j < i ==> rows[j] == [(key, vals[j])]
        {
          rows := rows + [[(key, vals[i])]];
          i := i + 1;
        }
      } else {
        var i := 0;
        while i < |rows| && i < |vals|
          invariant 0 <= i <= |rows| && i <= |vals| && |rows| == |old(rows)| && columns == old(columns)
          invariant forall j :: 0 <= j < |rows| ==> rows[j] == if j < i then Set(old(rows)[j], key, vals[j]) else old(rows)[j]
        {
          rows := rows[i := Set(rows[i], key, vals[i])];
          i := i + 1;
        }
      }
      if key !in columns {
        columns := columns + [key];
      }
    }

    /**
     * `df.duplicated(subset)`: flag i is True exactly when the subset key of
     * row i is `==` to the key of some earlier row.
     */
    method Duplicated(subset: seq<string>) returns (flags: Series)
      ensures flags.name == "duplicated" && |flags.data| == |rows|
      ensures forall i :: 0 <= i < |rows| ==>
        flags.data[i] == Bool(exists j :: 0 <= j < i && KeyEq(RowKey(rows[j], subset), RowKey(rows[i], subset)))
    {
      var fs := DuplicateFlags(rows, subset);
      flags := Series(fs, "duplicated");
    }

    /** `df.groupby(key)`, iterated: the (key, rows) pairs in first-seen order. */
    method GroupBy(key: string) returns (groups: seq<(Value, seq<Row>)>)
      ensures groups == Groups(rows, key)
    {
      groups := [];
      var i := 0;
      assert rows[..0] == [];
      while i < |rows|
        invariant 0 <= i <= |rows|
        invariant groups == Groups(rows[..i], key)
      {
        GroupsSnoc(rows[..i], rows[i], key);
        assert rows[..i + 1] == rows[..i] + [rows[i]];
        var v := Get(rows[i], key);
        var j := IndexOfKey(groups, v);
        if j < |groups| {
          groups := groups[j := (groups[j].0, groups[j].1 + [rows[i]])];
        } else {
          groups := groups + [(v, [rows[i]])];
        }
        i := i + 1;
      }
      assert rows[..|rows|] == rows;
    }

    /** `df.sort_values(by)`: Python's stable `sorted` on the tuple of the `keyCols` columns. */
    method SortValues(keyCols: seq<string>) returns (r: DataFrame)
      requires KeysComparable(rows, keyCols)
      ensures fresh(r) && r.columns == FirstRowKeys(r.rows)
      ensures multiset(r.rows) == multiset(rows)
      ensures SortedBy(r.rows, keyCols)
      ensures forall sk :: Select(r.rows, SortKeyEquals(keyCols, sk)) == Select(rows, SortKeyEquals(keyCols, sk))
    {
      SortedRowsSpec(rows, keyCols);
      r := new DataFrame(SortedRows(rows, keyCols));
    }
  }
}
