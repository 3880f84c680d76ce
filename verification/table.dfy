/** The `hints` table, `coin_id blob, hint blob, UNIQUE (coin_id, hint)`, as a
    sequence of rows in insertion order, and the pieces of SQL the store uses
    on it: `WHERE <column> IN (...)`, projection onto a column, `LIMIT` and
    `INSERT OR IGNORE`. */
module Table {
  import opened Bytes
  import opened Seqs

  /** One row: a coin id and one hint attached to that coin. */
  datatype Row = Row(coinId: Bytes, hint: Bytes)

  datatype Column = CoinIdColumn | HintColumn

  function Field(r: Row, c: Column): Bytes {
    match c
    case CoinIdColumn => r.coinId
    case HintColumn => r.hint
  }

  /** `SELECT * FROM hints WHERE <where> IN keys`, rows kept in table order. */
  function Where(rows: seq<Row>, where: Column, keys: set<Bytes>): (r: seq<Row>)
    ensures forall x :: x in r <==> x in rows && Field(x, where) in keys
    ensures |r| <= |rows|
    ensures keys == {} ==> r == []
  {
    if rows == [] then []
    else (if Field(rows[0], where) in keys then [rows[0]] else []) + Where(rows[1..], where, keys)
  }

  /** The values of one column, row by row. */
  function Project(rs: seq<Row>, out: Column): (r: seq<Bytes>)
    ensures |r| == |rs|
    ensures forall i :: 0 <= i < |rs| ==> r[i] == Field(rs[i], out)
  {
    if rs == [] then [] else [Field(rs[0], out)] + Project(rs[1..], out)
  }

  /** SQLite's `LIMIT n`: at most `n` rows, and no limit at all when `n` is negative. */
  function Limit<T>(s: seq<T>, n: int): (r: seq<T>)
    ensures r <= s
    ensures n >= 0 ==> |r| <= n
    ensures n < 0 || |s| <= n ==> r == s
    ensures n >= 0 && |s| >= n ==> |r| == n
  {
    if n < 0 || |s| <= n then s else s[..n]
  }

  lemma ProjectConcat(a: seq<Row>, b: seq<Row>, out: Column)
    ensures Project(a + b, out) == Project(a, out) + Project(b, out)
  {
    var l, r := Project(a + b, out), Project(a, out) + Project(b, out);
    forall i | 0 <= i < |l| ensures l[i] == r[i] {
      if i < |a| {
        assert (a + b)[i] == a[i];
      } else {
        assert (a + b)[i] == b[i - |a|];
      }
    }
  }

  /** The values a projection yields are the column values of its rows. */
  lemma ProjectMembers(rs: seq<Row>, out: Column, v: Bytes)
    ensures v in Project(rs, out) <==> exists r :: r in rs && Field(r, out) == v
  {
    if v in Project(rs, out) {
      var i :| 0 <= i < |rs| && Project(rs, out)[i] == v;
      assert rs[i] in rs;
    }
    if exists r :: r in rs && Field(r, out) == v {
      var r :| r in rs && Field(r, out) == v;
      var i :| 0 <= i < |rs| && rs[i] == r;
      assert Project(rs, out)[i] == v;
    }
  }

  /** Selecting from a table without duplicate rows gives no duplicate rows. */
  lemma {:induction false} WhereKeepsDistinct(rows: seq<Row>, where: Column, keys: set<Bytes>)
    requires NoDuplicates(rows)
    ensures NoDuplicates(Where(rows, where, keys))
  {
    if rows != [] {
      assert NoDuplicates(rows[1..]) by {
        forall i, j | 0 <= i < j < |rows[1..]| ensures rows[1..][i] != rows[1..][j] {
          assert rows[1..][i] == rows[i + 1] && rows[1..][j] == rows[j + 1];
        }
      }
      WhereKeepsDistinct(rows[1..], where, keys);
      var rest := Where(rows[1..], where, keys);
      forall j | 0 <= j < |rows[1..]| ensures rows[1..][j] != rows[0] {
        assert rows[1..][j] == rows[j + 1];
      }
      assert rows[0] !in rest;
      var head := if Field(rows[0], where) in keys then [rows[0]] else [];
      var w := head + rest;
      forall i, j | 0 <= i < j < |w| ensures w[i] != w[j] {
        if i < |head| {
          assert w[i] == rows[0] && w[j] == rest[j - |head|];
        } else {
          assert w[i] == rest[i - |head|] && w[j] == rest[j - |head|];
        }
      }
    }
  }

  /** The projected selection, first row split off. */
  lemma WhereStep(rows: seq<Row>, where: Column, out: Column, keys: set<Bytes>)
    requires rows != []
    ensures multiset(Project(Where(rows, where, keys), out))
         == (if Field(rows[0], where) in keys then multiset{Field(rows[0], out)} else multiset{})
            + multiset(Project(Where(rows[1..], where, keys), out))
  {
    var h := if Field(rows[0], where) in keys then [rows[0]] else [];
    ProjectConcat(h, Where(rows[1..], where, keys), out);
  }

  /** Selecting on two disjoint key sets at once yields the rows of the two
      selections together, each as often as before (`IN (a) ∪ IN (b)`). */
  lemma {:induction false} WhereUnion(rows: seq<Row>, where: Column, out: Column, a: set<Bytes>, b: set<Bytes>)
    requires a !! b
    ensures multiset(Project(Where(rows, where, a + b), out))
         == multiset(Project(Where(rows, where, a), out)) + multiset(Project(Where(rows, where, b), out))
  {
    if rows != [] {
      WhereUnion(rows[1..], where, out, a, b);
      WhereStep(rows, where, out, a);
      WhereStep(rows, where, out, b);
      WhereStep(rows, where, out, a + b);
    }
  }

  /** `INSERT OR IGNORE` of one row: a row already present is skipped. */
  function InsertOrIgnore(rows: seq<Row>, r: Row): seq<Row> {
    if r in rows then rows else rows + [r]
  }

  /** `executemany("INSERT OR IGNORE ...", list)`: the rows inserted one after the other. */
  function InsertAll(rows: seq<Row>, list: seq<Row>): seq<Row>
    decreases |list|
  {
    if list == [] then rows else InsertAll(InsertOrIgnore(rows, list[0]), list[1..])
  }

  /** Inserting keeps every `(coin_id, hint)` pair unique. */
  lemma {:induction false} InsertAllKeepsUnique(rows: seq<Row>, list: seq<Row>)
    requires NoDuplicates(rows)
    ensures NoDuplicates(InsertAll(rows, list))
    decreases |list|
  {
    if list != [] {
      var next := InsertOrIgnore(rows, list[0]);
      assert NoDuplicates(next) by {
        if list[0] !in rows {
          forall i, j | 0 <= i < j < |next| ensures next[i] != next[j] {
            if j == |rows| {
              assert next[i] == rows[i];
            } else {
              assert next[i] == rows[i] && next[j] == rows[j];
            }
          }
        }
      }
      InsertAllKeepsUnique(next, list[1..]);
    }
  }

  /** After inserting, the table holds exactly the old rows and the new ones. */
  lemma {:induction false} InsertAllContents(rows: seq<Row>, list: seq<Row>)
    ensures forall x :: x in InsertAll(rows, list) <==> x in rows || x in list
    decreases |list|
  {
    if list != [] {
      InsertAllContents(InsertOrIgnore(rows, list[0]), list[1..]);
      assert list == [list[0]] + list[1..];
    }
  }

  /** Inserting only appends: the old table is a prefix of the new one. */
  lemma {:induction false} InsertAllAppends(rows: seq<Row>, list: seq<Row>)
    ensures rows <= InsertAll(rows, list)
    decreases |list|
  {
    if list != [] {
      InsertAllAppends(InsertOrIgnore(rows, list[0]), list[1..]);
    }
  }

  /** Inserting rows that are all present already changes nothing. */
  lemma {:induction false} InsertAllPresent(rows: seq<Row>, list: seq<Row>)
    requires forall x :: x in list ==> x in rows
    ensures InsertAll(rows, list) == rows
    decreases |list|
  {
    if list != [] {
      assert list[0] in list;
      forall x | x in list[1..] ensures x in rows {
        assert x in list;
      }
      InsertAllPresent(rows, list[1..]);
    }
  }

  /** Inserting the same list a second time changes nothing. */
  lemma InsertAllIdempotent(rows: seq<Row>, list: seq<Row>)
    ensures InsertAll(InsertAll(rows, list), list) == InsertAll(rows, list)
  {
    InsertAllContents(rows, list);
    InsertAllPresent(InsertAll(rows, list), list);
  }

  /** The row count after inserting is the number of distinct pairs among the
      old rows and the new ones. */
  lemma InsertAllCount(rows: seq<Row>, list: seq<Row>)
    requires NoDuplicates(rows)
    ensures |InsertAll(rows, list)| == |Elements(rows) + Elements(list)|
  {
    var t := InsertAll(rows, list);
    InsertAllKeepsUnique(rows, list);
    InsertAllContents(rows, list);
    DistinctCardinality(t);
    assert Elements(t) == Elements(rows) + Elements(list);
  }

  /** The hints that fit a `bytes32`, in order; the others are dropped. */
  function Filter32(hs: seq<Bytes>): (r: seq<Bytes>)
    ensures forall h :: h in r <==> h in hs && IsBytes32(h)
  {
    if hs == [] then []
    else (if IsBytes32(hs[0]) then [hs[0]] else []) + Filter32(hs[1..])
  }

  lemma {:induction false} Filter32Concat(a: seq<Bytes>, b: seq<Bytes>)
    ensures Filter32(a + b) == Filter32(a) + Filter32(b)
  {
    if a != [] {
      assert (a + b)[1..] == a[1..] + b;
      Filter32Concat(a[1..], b);
    } else {
      assert a + b == b;
    }
  }

  /** Filtering keeps each 32-byte hint exactly as often as it occurs. */
  lemma {:induction false} Filter32Multiplicity(hs: seq<Bytes>, h: Bytes)
    ensures multiset(Filter32(hs))[h] == if IsBytes32(h) then multiset(hs)[h] else 0
  {
    if hs != [] {
      Filter32Multiplicity(hs[1..], h);
      assert hs == [hs[0]] + hs[1..];
    }
  }

  /** Lists with the same elements, as often each, keep the same 32-byte hints. */
  lemma Filter32Multiset(a: seq<Bytes>, b: seq<Bytes>)
    requires multiset(a) == multiset(b)
    ensures multiset(Filter32(a)) == multiset(Filter32(b))
  {
    forall h ensures multiset(Filter32(a))[h] == multiset(Filter32(b))[h] {
      Filter32Multiplicity(a, h);
      Filter32Multiplicity(b, h);
    }
  }

  /** `d[row.coin_id] = row.hint` for every row in order: a later row with the
      same coin id overwrites the earlier one. */
  function BuildMap(q: seq<Row>): map<Bytes, Bytes>
    decreases |q|
  {
    if q == [] then map[]
    else BuildMap(q[..|q| - 1])[q[|q| - 1].coinId := q[|q| - 1].hint]
  }

  /** The map's keys are the coin ids of the rows, and each key holds the hint
      of the last row with that coin id. */
  lemma {:induction false} BuildMapLastWins(q: seq<Row>, k: Bytes)
    ensures k in BuildMap(q) <==> exists i :: 0 <= i < |q| && q[i].coinId == k
    ensures k in BuildMap(q) ==>
      exists i :: 0 <= i < |q| && q[i].coinId == k && BuildMap(q)[k] == q[i].hint
        && forall j :: i < j < |q| ==> q[j].coinId != k
    decreases |q|
  {
    if q != [] {
      var p := q[..|q| - 1];
      BuildMapLastWins(p, k);
      var last := |q| - 1;
      if q[last].coinId != k {
        if exists i :: 0 <= i < |q| && q[i].coinId == k {
          var i :| 0 <= i < |q| && q[i].coinId == k;
          assert p[i] == q[i];
        }
        if k in BuildMap(p) {
          var i :| 0 <= i < |p| && p[i].coinId == k && BuildMap(p)[k] == p[i].hint
            && forall j :: i < j < |p| ==> p[j].coinId != k;
          assert q[i] == p[i];
          forall j | i < j < |q| ensures q[j].coinId != k {
            if j < last {
              assert q[j] == p[j];
            }
          }
        }
      }
    }
  }
}
