/** `NewConfig` and `GetVariable` of the config compiler. A sheet is a
    sequence of rows of cell strings: row 0 holds the config name, rows 3 to
    6 the describe, name, type and export-parameter lines, and data starts at
    row 7. `getValueWithType` is the parameter `conv`, the parsed index count
    (row 1, cell 1) is the parameter `indexCount`, and `str.FirstUpper` is
    the parameter `firstUpper`. */
module ConfigSheet {
  import opened Common
  import opened GoText

  type Sheet = seq<seq<string>>

  const DescribeRow := 3
  const NameRow := 4
  const TypeRow := 5
  const ExportRow := 6
  const FirstDataRow := 7

  /** `NewConfig`'s explicit panic: more index columns than fields. */
  datatype ConfigError = IndexCountExceedsFields

  /** A node of the index tree: a data line at full depth, a map one level down otherwise. */
  datatype Node<V(==)> = Leaf(line: Option<map<string, V>>) | Branch(children: map<V, Node<V>>)

  /** What `NewConfig` computes: the skipped columns, the data line of every
      row, the index tree and the line of the last row. */
  datatype Config<V(==)> = Config(
    skip: set<nat>,
    lines: seq<Option<map<string, V>>>,
    data: map<V, Node<V>>,
    dataLine: Option<map<string, V>>)

  /** The header cells the skip analysis reads are present. */
  predicate HeaderReadable(sheet: Sheet)
  {
    && |sheet| >= FirstDataRow
    && |sheet[NameRow]| >= |sheet[DescribeRow]|
    && |sheet[TypeRow]| >= |sheet[DescribeRow]|
    && |sheet[ExportRow]| >= |sheet[DescribeRow]|
  }

  /** The data cells `NewConfig` reads are present: every kept column below
      the describe line's width, and a type cell for every cell of the row. */
  ghost predicate RowsReadable(sheet: Sheet, skip: set<nat>)
    requires HeaderReadable(sheet)
  {
    forall r :: FirstDataRow <= r < |sheet| ==>
      && |sheet[r]| <= |sheet[TypeRow]|
      && forall i :: 1 <= i < |sheet[DescribeRow]| && i !in skip ==> i < |sheet[r]|
  }

  // ---------------------------------------------------------------------------
  // Skip analysis

  predicate CommentOrEmpty(s: string)
  {
    HasPrefix(s, "#") || |s| == 0
  }

  /** Column `i` is not exported: its trimmed name starts with `#`, or its
      trimmed type or export parameter is empty or starts with `#`. The three
      checks are tried in this order and the first that holds skips it. */
  predicate Skipped(sheet: Sheet, i: nat)
    requires HeaderReadable(sheet) && 1 <= i < |sheet[DescribeRow]|
  {
    || HasPrefix(TrimSpace(sheet[NameRow][i]), "#")
    || CommentOrEmpty(TrimSpace(sheet[TypeRow][i]))
    || CommentOrEmpty(TrimSpace(sheet[ExportRow][i]))
  }

  /** The analysis loop over columns `i` to `n - 1`, with the columns
      skipped so far and the column test `skipped`. */
  function SkipScan(n: nat, skipped: nat -> bool, i: nat, acc: set<nat>): set<nat>
    decreases n - i
  {
    if i >= n then acc
    else SkipScan(n, skipped, i + 1, if skipped(i) then acc + {i} else acc)
  }

  /** `skipField`: exactly the columns from 1 on, below the describe line's width, that are skipped. */
  function SkipField(sheet: Sheet): (skip: set<nat>)
    requires HeaderReadable(sheet)
    ensures forall i :: i in skip <==> 1 <= i < |sheet[DescribeRow]| && Skipped(sheet, i)
  {
    var skipped := c => 1 <= c < |sheet[DescribeRow]| && Skipped(sheet, c);
    SkipScanSound(|sheet[DescribeRow]|, skipped, 1, {});
    SkipScan(|sheet[DescribeRow]|, skipped, 1, {})
  }

  lemma {:induction false} SkipScanSound(n: nat, skipped: nat -> bool, i: nat, acc: set<nat>)
    ensures forall c :: c in SkipScan(n, skipped, i, acc) <==> c in acc || (i <= c < n && skipped(c))
    decreases n - i
  {
    if i < n {
      SkipScanSound(n, skipped, i + 1, if skipped(i) then acc + {i} else acc);
    }
  }

  // ---------------------------------------------------------------------------
  // Kept columns and data lines

  /** The columns in [lo, hi) that are not skipped, in ascending order. */
  function KeptFrom(skip: set<nat>, lo: nat, hi: nat): (cols: seq<nat>)
    ensures forall c :: c in cols <==> lo <= c < hi && c !in skip
    decreases hi - lo
  {
    if lo >= hi then []
    else if lo in skip then KeptFrom(skip, lo + 1, hi)
    else [lo] + KeptFrom(skip, lo + 1, hi)
  }

  predicate Increasing(cols: seq<nat>)
  {
    forall j, k :: 0 <= j < k < |cols| ==> cols[j] < cols[k]
  }

  /** The kept columns come in ascending order. */
  lemma {:induction false} KeptAscending(skip: set<nat>, lo: nat, hi: nat)
    ensures Increasing(KeptFrom(skip, lo, hi))
    decreases hi - lo
  {
    if lo < hi {
      KeptAscending(skip, lo + 1, hi);
      var rest := KeptFrom(skip, lo + 1, hi);
      if lo in skip {
        assert KeptFrom(skip, lo, hi) == rest;
      } else {
        var cols := [lo] + rest;
        assert KeptFrom(skip, lo, hi) == cols;
        forall j, k | 0 <= j < k < |cols| ensures cols[j] < cols[k] {
          assert cols[k] == rest[k - 1] && rest[k - 1] in rest;
          if j > 0 {
            assert cols[j] == rest[j - 1];
          }
        }
      }
    }
  }

  /** The key a column's values are stored under: its trimmed name. */
  function FieldName(sheet: Sheet, c: nat): string
    requires HeaderReadable(sheet) && c < |sheet[NameRow]|
  {
    TrimSpace(sheet[NameRow][c])
  }

  /** The map left by assigning `vals[j]` to `keys[j]` in order: a later assignment to a key overrides an earlier one. */
  function Assign<K(!new), V>(keys: seq<K>, vals: seq<V>): (m: map<K, V>)
    requires |keys| == |vals|
    ensures forall key :: key in m <==> key in keys
    ensures forall j :: 0 <= j < |keys| && LastAt(keys, j) ==> m[keys[j]] == vals[j]
    decreases |keys|
  {
    if |keys| == 0 then map[]
    else
      var n := |keys| - 1;
      var init := Assign(keys[..n], vals[..n]);
      AssignLast(keys, vals, init);
      init[keys[n] := vals[n]]
  }

  /** No later position of `keys` repeats the key at `j`. */
  predicate LastAt<K(==)>(keys: seq<K>, j: nat)
  {
    forall k :: j < k < |keys| ==> keys[k] != keys[j]
  }

  /** One more assignment on top of the map of all earlier ones. */
  lemma AssignLast<K, V>(keys: seq<K>, vals: seq<V>, init: map<K, V>)
    requires |keys| == |vals| > 0
    requires forall key :: key in init <==> key in keys[..|keys| - 1]
    requires var ik, iv := keys[..|keys| - 1], vals[..|keys| - 1];
             forall j :: 0 <= j < |ik| && LastAt(ik, j) ==> init[ik[j]] == iv[j]
    ensures var m := init[keys[|keys| - 1] := vals[|keys| - 1]];
            && (forall key :: key in m <==> key in keys)
            && (forall j :: 0 <= j < |keys| && LastAt(keys, j) ==> m[keys[j]] == vals[j])
  {
    var n := |keys| - 1;
    var m := init[keys[n] := vals[n]];
    forall key ensures key in m <==> key in keys {
      if key in keys {
        var j :| 0 <= j < |keys| && keys[j] == key;
        if j < n {
          assert keys[..n][j] == key;
        }
      }
    }
    forall j | 0 <= j < |keys| && LastAt(keys, j) ensures m[keys[j]] == vals[j] {
      if j < n {
        assert keys[n] != keys[j];
        assert LastAt(keys[..n], j) by {
          forall k | j < k < n ensures keys[..n][k] != keys[..n][j] {
            assert keys[k] != keys[j];
          }
        }
        assert init[keys[..n][j]] == vals[..n][j];
      }
    }
  }

  /** The names of the columns `cols`. */
  function Names(sheet: Sheet, cols: seq<nat>): (ks: seq<string>)
    requires HeaderReadable(sheet)
    requires forall j :: 0 <= j < |cols| ==> cols[j] < |sheet[DescribeRow]|
    ensures |ks| == |cols| && forall j :: 0 <= j < |cols| ==> ks[j] == FieldName(sheet, cols[j])
  {
    seq(|cols|, j requires 0 <= j < |cols| => FieldName(sheet, cols[j]))
  }

  /** The converted cells of row `r` in the columns `cols`. */
  function Cells<V>(sheet: Sheet, conv: (string, string) -> V, r: nat, cols: seq<nat>): (vs: seq<V>)
    requires HeaderReadable(sheet) && r < |sheet|
    requires forall j :: 0 <= j < |cols| ==> cols[j] < |sheet[DescribeRow]| && cols[j] < |sheet[r]|
    ensures |vs| == |cols| && forall j :: 0 <= j < |cols| ==> vs[j] == conv(sheet[TypeRow][cols[j]], sheet[r][cols[j]])
  {
    seq(|cols|, j requires 0 <= j < |cols| => conv(sheet[TypeRow][cols[j]], sheet[r][cols[j]]))
  }

  /** `dataLine[r]`: nothing above row 7 or without any kept column, the row's fields otherwise. */
  function DataLine<V>(sheet: Sheet, skip: set<nat>, conv: (string, string) -> V, r: nat): Option<map<string, V>>
    requires HeaderReadable(sheet) && RowsReadable(sheet, skip) && r < |sheet|
  {
    var cols := KeptFrom(skip, 1, |sheet[DescribeRow]|);
    assert forall j :: 0 <= j < |cols| ==> cols[j] in cols;
    if r < FirstDataRow || |cols| == 0 then None else Some(Assign(Names(sheet, cols), Cells(sheet, conv, r, cols)))
  }

  // ---------------------------------------------------------------------------
  // The index tree

  /** Every key path of the tree has length `depth` and ends in a leaf. */
  ghost predicate Shaped<V>(c: map<V, Node<V>>, depth: nat)
    decreases depth
  {
    forall v :: v in c ==>
      || (depth == 1 && c[v].Leaf?)
      || (depth > 1 && c[v].Branch? && Shaped(c[v].children, depth - 1))
  }

  /** The walk of `NewConfig` for one row: descend along `path`, creating
      missing maps, and store `leaf` at depth `depth` unless a line is already
      there. A path shorter than `depth` only creates maps. */
  function Insert<V(==)>(c: map<V, Node<V>>, path: seq<V>, depth: nat, leaf: Option<map<string, V>>): (r: map<V, Node<V>>)
    requires |path| <= depth && Shaped(c, depth)
    ensures Shaped(r, depth)
    decreases |path|
  {
    if |path| == 0 then c
    else if depth == 1 then (if path[0] in c then c else c[path[0] := Leaf(leaf)])
    else
      var sub := if path[0] in c then c[path[0]].children else map[];
      c[path[0] := Branch(Insert(sub, path[1..], depth - 1, leaf))]
  }

  /** The node under the key path `q`, if any. */
  function Lookup<V(==)>(c: map<V, Node<V>>, q: seq<V>): Option<Node<V>>
    decreases |q|
  {
    if |q| == 0 || q[0] !in c then None
    else if |q| == 1 then Some(c[q[0]])
    else match c[q[0]]
      case Leaf(_) => None
      case Branch(children) => Lookup(children, q[1..])
  }

  /** An insertion adds the leaf under its own full-length path if nothing is there yet, and nothing else. */
  lemma {:induction false} LookupInsert<V>(c: map<V, Node<V>>, p: seq<V>, depth: nat, leaf: Option<map<string, V>>, q: seq<V>)
    requires |p| <= depth && Shaped(c, depth) && |q| == depth >= 1
    ensures Lookup(Insert(c, p, depth, leaf), q) ==
              if Lookup(c, q).Some? then Lookup(c, q)
              else if p == q then Some(Leaf(leaf))
              else None
    decreases |p|
  {
    if |p| == 0 {
      assert p != q;
    } else if depth == 1 {
      assert |q| == 1;
      if p[0] == q[0] {
        assert p == q;
      }
    } else if p[0] != q[0] {
      assert p != q;
    } else {
      var sub := if p[0] in c then c[p[0]].children else map[];
      assert Shaped(sub, depth - 1);
      LookupInsert(sub, p[1..], depth - 1, leaf, q[1..]);
      assert Lookup(c, q) == (if p[0] in c then Lookup(sub, q[1..]) else None);
      assert p == q <==> p[1..] == q[1..];
    }
  }

  /** The index key path of row `r`: the converted values of its first `depth` kept cells. */
  function Path<V>(sheet: Sheet, skip: set<nat>, conv: (string, string) -> V, r: nat, depth: nat): (p: seq<V>)
    requires HeaderReadable(sheet) && RowsReadable(sheet, skip) && FirstDataRow <= r < |sheet|
    ensures |p| <= depth
  {
    var cols := KeptFrom(skip, 1, |sheet[r]|);
    assert forall j :: 0 <= j < |cols| ==> cols[j] in cols;
    var n := if depth < |cols| then depth else |cols|;
    seq(n, j requires 0 <= j < n => conv(sheet[TypeRow][cols[j]], sheet[r][cols[j]]))
  }

  /** The index loop from row `r` on. */
  function Build<V(==)>(c: map<V, Node<V>>, sheet: Sheet, skip: set<nat>, conv: (string, string) -> V, depth: nat, r: nat): (t: map<V, Node<V>>)
    requires HeaderReadable(sheet) && RowsReadable(sheet, skip) && FirstDataRow <= r <= |sheet|
    requires Shaped(c, depth)
    ensures Shaped(t, depth)
    decreases |sheet| - r
  {
    if r == |sheet| then c
    else Build(Insert(c, Path(sheet, skip, conv, r, depth), depth, DataLine(sheet, skip, conv, r)), sheet, skip, conv, depth, r + 1)
  }

  /** The first data row from `r` on whose key path is `q`. */
  function FirstRow<V(==)>(sheet: Sheet, skip: set<nat>, conv: (string, string) -> V, depth: nat, q: seq<V>, r: nat): (found: Option<nat>)
    requires HeaderReadable(sheet) && RowsReadable(sheet, skip) && FirstDataRow <= r <= |sheet|
    ensures found.Some? ==> r <= found.value < |sheet| && Path(sheet, skip, conv, found.value, depth) == q
    ensures found.Some? ==> forall k :: r <= k < found.value ==> Path(sheet, skip, conv, k, depth) != q
    ensures found.None? ==> forall k :: r <= k < |sheet| ==> Path(sheet, skip, conv, k, depth) != q
    decreases |sheet| - r
  {
    if r == |sheet| then None
    else if Path(sheet, skip, conv, r, depth) == q then Some(r)
    else FirstRow(sheet, skip, conv, depth, q, r + 1)
  }

  lemma {:induction false} BuildLookup<V>(c: map<V, Node<V>>, sheet: Sheet, skip: set<nat>, conv: (string, string) -> V, depth: nat, r: nat, q: seq<V>)
    requires HeaderReadable(sheet) && RowsReadable(sheet, skip) && FirstDataRow <= r <= |sheet|
    requires Shaped(c, depth) && |q| == depth >= 1
    ensures Lookup(Build(c, sheet, skip, conv, depth, r), q) ==
              if Lookup(c, q).Some? then Lookup(c, q)
              else match FirstRow(sheet, skip, conv, depth, q, r)
                case None => None
                case Some(k) => Some(Leaf(DataLine(sheet, skip, conv, k)))
    decreases |sheet| - r
  {
    if r < |sheet| {
      var c' := Insert(c, Path(sheet, skip, conv, r, depth), depth, DataLine(sheet, skip, conv, r));
      LookupInsert(c, Path(sheet, skip, conv, r, depth), depth, DataLine(sheet, skip, conv, r), q);
      BuildLookup(c', sheet, skip, conv, depth, r + 1, q);
    }
  }

  // ---------------------------------------------------------------------------
  // NewConfig

  /** `NewConfig`: the skip analysis, its panic when the index count exceeds
      the fields left, the data lines of rows 7 on, and the index tree of
      depth `indexCount` (empty when `indexCount <= 0`). */
  function NewConfig<V(==)>(sheet: Sheet, indexCount: int, conv: (string, string) -> V): (r: Result<Config<V>, ConfigError>)
    requires HeaderReadable(sheet) && RowsReadable(sheet, SkipField(sheet))
    ensures r.Err? <==> |sheet[NameRow]| - 1 - |SkipField(sheet)| < indexCount
    ensures r.Ok? ==> r.value.skip == SkipField(sheet) && |r.value.lines| == |sheet|
    ensures r.Ok? ==> r.value.dataLine == r.value.lines[|sheet| - 1]
    ensures r.Ok? ==> Shaped(r.value.data, if indexCount > 0 then indexCount else 0)
    ensures r.Ok? ==> forall k :: 0 <= k < FirstDataRow ==> r.value.lines[k].None?
    ensures r.Ok? ==> forall k :: 0 <= k < |sheet| ==> r.value.lines[k] == DataLine(sheet, SkipField(sheet), conv, k)
  {
    var skip := SkipField(sheet);
    if |sheet[NameRow]| - 1 - |skip| < indexCount then Err(IndexCountExceedsFields)
    else
      var depth: nat := if indexCount > 0 then indexCount else 0;
      var lines := seq(|sheet|, k requires 0 <= k < |sheet| => DataLine(sheet, skip, conv, k));
      var data := Build(map[], sheet, skip, conv, depth, FirstDataRow);
      Ok(Config(skip, lines, data, lines[|sheet| - 1]))
  }

  /** Column `c` is exported: a column from 1 on, below the describe line's width, that is not skipped. */
  predicate Kept(sheet: Sheet, skip: set<nat>, c: nat)
    requires HeaderReadable(sheet)
  {
    1 <= c < |sheet[DescribeRow]| && c !in skip
  }

  /** Only the named fields of exported columns make it into a data line:
      column 0 and skipped columns never do, and an exported column whose name
      no later exported column repeats holds its converted cell. */
  lemma DataLineFields<V>(sheet: Sheet, skip: set<nat>, conv: (string, string) -> V, r: nat)
    requires HeaderReadable(sheet) && RowsReadable(sheet, skip)
    requires FirstDataRow <= r < |sheet|
    ensures DataLine(sheet, skip, conv, r).Some? <==> exists c: nat :: Kept(sheet, skip, c)
    ensures DataLine(sheet, skip, conv, r).Some? ==>
              forall key :: key in DataLine(sheet, skip, conv, r).value <==>
                exists c: nat :: Kept(sheet, skip, c) && FieldName(sheet, c) == key
    ensures DataLine(sheet, skip, conv, r).Some? ==>
              forall c: nat ::
                (Kept(sheet, skip, c) && forall d: nat :: c < d && Kept(sheet, skip, d) ==> FieldName(sheet, d) != FieldName(sheet, c)) ==>
                DataLine(sheet, skip, conv, r).value[FieldName(sheet, c)] == conv(sheet[TypeRow][c], sheet[r][c])
  {
    var cols := KeptFrom(skip, 1, |sheet[DescribeRow]|);
    assert forall j :: 0 <= j < |cols| ==> cols[j] in cols;
    assert forall c: nat :: Kept(sheet, skip, c) ==> c in cols;
    if |cols| > 0 {
      assert DataLine(sheet, skip, conv, r) == Some(Assign(Names(sheet, cols), Cells(sheet, conv, r, cols)));
      LineKeys(sheet, skip, conv, r, cols);
      LineValues(sheet, skip, conv, r, cols);
    }
  }

  /** The names assigned for the kept columns are the names of the exported columns. */
  lemma LineKeys<V>(sheet: Sheet, skip: set<nat>, conv: (string, string) -> V, r: nat, cols: seq<nat>)
    requires HeaderReadable(sheet) && RowsReadable(sheet, skip)
    requires FirstDataRow <= r < |sheet| && cols == KeptFrom(skip, 1, |sheet[DescribeRow]|)
    requires forall j :: 0 <= j < |cols| ==> cols[j] in cols
    ensures forall key :: key in Assign(Names(sheet, cols), Cells(sheet, conv, r, cols)) <==>
              exists c: nat :: Kept(sheet, skip, c) && FieldName(sheet, c) == key
  {
    var n := |sheet[DescribeRow]|;
    var name := (c: nat) => if c < n then FieldName(sheet, c) else "";
    var val := (c: nat) => if c < n && c < |sheet[r]| then conv(sheet[TypeRow][c], sheet[r][c]) else conv("", "");
    var kept := (c: nat) => Kept(sheet, skip, c);
    forall c | kept(c) ensures exists j :: 0 <= j < |cols| && cols[j] == c {
      assert c in cols;
    }
    AssignColumnKeys(cols, Names(sheet, cols), Cells(sheet, conv, r, cols), kept, name, val);
    var m := Assign(Names(sheet, cols), Cells(sheet, conv, r, cols));
    forall key ensures key in m <==> exists c: nat :: Kept(sheet, skip, c) && FieldName(sheet, c) == key {
      if key in m {
        var c :| kept(c) && name(c) == key;
        assert Kept(sheet, skip, c) && FieldName(sheet, c) == key;
      }
      if exists c: nat :: Kept(sheet, skip, c) && FieldName(sheet, c) == key {
        var c: nat :| Kept(sheet, skip, c) && FieldName(sheet, c) == key;
        assert kept(c) && name(c) == key;
      }
    }
  }

  /** An exported column whose name no later exported column repeats keeps its converted cell. */
  lemma LineValues<V>(sheet: Sheet, skip: set<nat>, conv: (string, string) -> V, r: nat, cols: seq<nat>)
    requires HeaderReadable(sheet) && RowsReadable(sheet, skip)
    requires FirstDataRow <= r < |sheet| && cols == KeptFrom(skip, 1, |sheet[DescribeRow]|)
    requires forall j :: 0 <= j < |cols| ==> cols[j] in cols
    ensures forall c: nat ::
              (Kept(sheet, skip, c) && forall d: nat :: c < d && Kept(sheet, skip, d) ==> FieldName(sheet, d) != FieldName(sheet, c)) ==>
              Assign(Names(sheet, cols), Cells(sheet, conv, r, cols))[FieldName(sheet, c)] == conv(sheet[TypeRow][c], sheet[r][c])
  {
    var n := |sheet[DescribeRow]|;
    var name := (c: nat) => if c < n then FieldName(sheet, c) else "";
    var val := (c: nat) => if c < n && c < |sheet[r]| then conv(sheet[TypeRow][c], sheet[r][c]) else conv("", "");
    var kept := (c: nat) => Kept(sheet, skip, c);
    forall c | kept(c) ensures exists j :: 0 <= j < |cols| && cols[j] == c {
      assert c in cols;
    }
    KeptAscending(skip, 1, n);
    AssignColumnValues(cols, Names(sheet, cols), Cells(sheet, conv, r, cols), kept, name, val);
  }

  /** Assigning each of the columns `cols`, which are exactly the columns
      `kept` accepts, its value under its name: the keys are the names of the
      kept columns. */
  lemma AssignColumnKeys<V>(cols: seq<nat>, keys: seq<string>, vals: seq<V>, kept: nat -> bool, name: nat -> string, val: nat -> V)
    requires |keys| == |cols| && |vals| == |cols|
    requires forall j :: 0 <= j < |cols| ==> keys[j] == name(cols[j]) && vals[j] == val(cols[j]) && kept(cols[j])
    requires forall c :: kept(c) ==> exists j :: 0 <= j < |cols| && cols[j] == c
    ensures forall key :: key in Assign(keys, vals) <==> exists c :: kept(c) && name(c) == key
  {
    var m := Assign(keys, vals);
    forall key ensures key in m <==> exists c :: kept(c) && name(c) == key {
      if key in m {
        var j :| 0 <= j < |keys| && keys[j] == key;
        assert kept(cols[j]);
      }
      if exists c :: kept(c) && name(c) == key {
        var c :| kept(c) && name(c) == key;
        var j :| 0 <= j < |cols| && cols[j] == c;
        assert keys[j] == key;
      }
    }
  }

  /** With the columns in ascending order, a kept column whose name no later
      kept column repeats holds its own value. */
  lemma AssignColumnValues<V>(cols: seq<nat>, keys: seq<string>, vals: seq<V>, kept: nat -> bool, name: nat -> string, val: nat -> V)
    requires |keys| == |cols| && |vals| == |cols|
    requires forall j :: 0 <= j < |cols| ==> keys[j] == name(cols[j]) && vals[j] == val(cols[j]) && kept(cols[j])
    requires forall c :: kept(c) ==> exists j :: 0 <= j < |cols| && cols[j] == c
    requires Increasing(cols)
    ensures forall c :: kept(c) && (forall d :: c < d && kept(d) ==> name(d) != name(c)) ==> Assign(keys, vals)[name(c)] == val(c)
  {
    forall c | kept(c) && (forall d :: c < d && kept(d) ==> name(d) != name(c))
      ensures Assign(keys, vals)[name(c)] == val(c)
    {
      var j :| 0 <= j < |cols| && cols[j] == c;
      LastColumn(cols, keys, kept, name, j);
    }
  }

  /** A kept column whose name no later kept column repeats is the last position of its key. */
  lemma LastColumn(cols: seq<nat>, keys: seq<string>, kept: nat -> bool, name: nat -> string, j: nat)
    requires |keys| == |cols| && j < |cols|
    requires forall i :: 0 <= i < |cols| ==> keys[i] == name(cols[i]) && kept(cols[i])
    requires Increasing(cols)
    requires forall d :: cols[j] < d && kept(d) ==> name(d) != name(cols[j])
    ensures LastAt(keys, j)
  {
    forall k | j < k < |keys| ensures keys[k] != keys[j] {
      assert cols[j] < cols[k] && kept(cols[k]);
    }
  }

  /** Every data row is filed under its key path: a row whose path has full
      length can be found under it, and what is found is the line of the
      first row with that path, since later rows never overwrite it. */
  lemma IndexFirstRowWins<V>(sheet: Sheet, indexCount: int, conv: (string, string) -> V, q: seq<V>)
    requires HeaderReadable(sheet) && RowsReadable(sheet, SkipField(sheet))
    requires NewConfig(sheet, indexCount, conv).Ok? && indexCount >= 1 && |q| == indexCount
    ensures Lookup(NewConfig(sheet, indexCount, conv).value.data, q) ==
              match FirstRow(sheet, SkipField(sheet), conv, indexCount, q, FirstDataRow)
                case None => None
                case Some(k) => Some(Leaf(DataLine(sheet, SkipField(sheet), conv, k)))
  {
    BuildLookup(map[], sheet, SkipField(sheet), conv, indexCount, FirstDataRow, q);
  }

  // ---------------------------------------------------------------------------
  // GetVariable

  /** The type cells of kept columns contain no `%`, so each intermediate
      type string is read back as a format whose only verbs are `%s`. */
  predicate PlainTypes(types: seq<string>, skip: set<nat>)
  {
    forall i :: 1 <= i < |types| && i !in skip ==> '%' !in types[i]
  }

  /** The loop of `GetVariable` from column `i`, with `index` map levels
      still to open and the type string `mapStr` built so far. */
  function VariableFrom(types: seq<string>, skip: set<nat>, i: nat, index: int, mapStr: string, tail: string): string
    requires 1 <= i && PlainTypes(types, skip)
    requires VerbsOnly(mapStr) && (index > 0 ==> Verbs(mapStr) == 2)
    decreases |types| - i
  {
    if i >= |types| then mapStr
    else if i in skip then VariableFrom(types, skip, i + 1, index, mapStr, tail)
    else if index > 0 then
      var next := if index - 1 == 0 then "%s" else "map[%s]%s";
      FormatStep(mapStr, types[i], next);
      VariableFrom(types, skip, i + 1, index - 1, Format(mapStr, [types[i], next]), tail)
    else Format(mapStr, [tail])
  }

  /** The two formats `GetVariable` writes: `map[%s]%s` with two verbs, `%s` with one. */
  lemma VerbLiterals()
    ensures VerbsOnly("%s") && Verbs("%s") == 1
    ensures VerbsOnly("map[%s]%s") && Verbs("map[%s]%s") == 2
  {
    assert VerbsOnly("%s") by {
      assert "%s"[0] == '%' && "%s"[1] == 's';
    }
    assert Verbs("%s") == 1 by {
      assert "%s"[1..] == "s";
      assert "s"[1..] == "";
    }
    NoVerbs("map[");
    NoVerbs("]");
    VerbsOnlyConcat("]", "%s");
    assert "]" + "%s" == "]%s";
    VerbsOnlyConcat("%s", "]%s");
    assert "%s" + "]%s" == "%s]%s";
    VerbsOnlyConcat("map[", "%s]%s");
    assert "map[" + "%s]%s" == "map[%s]%s";
  }

  /** Formatting a two-verb string with a plain type and `%s` or `map[%s]%s` keeps it a format. */
  lemma FormatStep(mapStr: string, typ: string, next: string)
    requires VerbsOnly(mapStr) && Verbs(mapStr) == 2 && '%' !in typ
    requires next == "%s" || next == "map[%s]%s"
    ensures VerbsOnly(Format(mapStr, [typ, next]))
    ensures Verbs(Format(mapStr, [typ, next])) == Verbs(next)
  {
    NoVerbs(typ);
    VerbLiterals();
    ArgVerbsPair(typ, next);
    FormatShape(mapStr, [typ, next]);
  }

  lemma ArgVerbsPair(a: string, b: string)
    ensures ArgVerbs([a, b]) == Verbs(a) + Verbs(b)
  {
    assert [a, b][1..] == [b];
    assert [b][1..] == [];
    assert ArgVerbs([b]) == Verbs(b) + ArgVerbs([]);
  }

  /** `GetVariable`: the Go type of the config's data variable. */
  function GetVariable(sheet: Sheet, skip: set<nat>, indexCount: int, firstUpper: string -> string): string
    requires |sheet| > TypeRow && |sheet[0]| > 1 && PlainTypes(sheet[TypeRow], skip)
  {
    VerbLiterals();
    Format("%s", [VariableType(sheet, skip, indexCount, firstUpper)])
  }

  /** The type string the loop of `GetVariable` builds, starting from `map[%s]%s`
      with the element type `*_Name`. */
  function VariableType(sheet: Sheet, skip: set<nat>, indexCount: int, firstUpper: string -> string): string
    requires |sheet| > TypeRow && |sheet[0]| > 1 && PlainTypes(sheet[TypeRow], skip)
  {
    VerbLiterals();
    VariableFrom(sheet[TypeRow], skip, 1, indexCount, "map[%s]%s", "*_" + firstUpper(sheet[0][1]))
  }

  // ---------------------------------------------------------------------------
  // What GetVariable produces

  /** The type cells of the kept columns from `i` on, in order. */
  function KeptTypes(types: seq<string>, skip: set<nat>, i: nat): seq<string>
    decreases |types| - i
  {
    if i >= |types| then []
    else if i in skip then KeptTypes(types, skip, i + 1)
    else [types[i]] + KeptTypes(types, skip, i + 1)
  }

  /** `kt` holds the type cells of the columns `ks`, in the same order. */
  predicate TypesAt(kt: seq<string>, types: seq<string>, ks: seq<nat>)
  {
    |kt| == |ks| && forall j :: 0 <= j < |ks| ==> ks[j] < |types| && kt[j] == types[ks[j]]
  }

  /** `KeptTypes` lists the type cells of exactly the columns `KeptFrom` keeps. */
  lemma {:induction false} KeptTypesOfColumns(types: seq<string>, skip: set<nat>, i: nat)
    ensures TypesAt(KeptTypes(types, skip, i), types, KeptFrom(skip, i, |types|))
    decreases |types| - i
  {
    if i < |types| {
      KeptTypesOfColumns(types, skip, i + 1);
      if i !in skip {
        TypesAtCons(KeptTypes(types, skip, i + 1), types, KeptFrom(skip, i + 1, |types|), i);
      }
    }
  }

  lemma TypesAtCons(kt: seq<string>, types: seq<string>, ks: seq<nat>, i: nat)
    requires TypesAt(kt, types, ks) && i < |types|
    ensures TypesAt([types[i]] + kt, types, [i] + ks)
  {
    var kt', ks' := [types[i]] + kt, [i] + ks;
    forall j | 0 <= j < |ks'| ensures ks'[j] < |types| && kt'[j] == types[ks'[j]] {
      if j > 0 {
        assert ks'[j] == ks[j - 1] && kt'[j] == kt[j - 1];
      }
    }
  }

  /** The nested map type the index types `ts` describe: one `map[T]` per type, outermost first. */
  function Nest(ts: seq<string>): string
  {
    if |ts| == 0 then "" else "map[" + ts[0] + "]" + Nest(ts[1..])
  }

  /** One index level: the type fills the first verb and `next` the second. */
  lemma FormatNestStep(prefix: string, t: string, next: string)
    requires '%' !in prefix && '%' !in t
    ensures VerbsOnly(prefix + "map[%s]%s") && Verbs(prefix + "map[%s]%s") == 2
    ensures Format(prefix + "map[%s]%s", [t, next]) == prefix + "map[" + t + "]" + next
  {
    PrefixedMap(prefix);
    var level := "map[" + t + "]" + next;
    assert Format("map[%s]%s", [t, next]) == level by {
      FormatMap(t, [next]);
      FormatClose(next);
      assert [t] + [next] == [t, next];
    }
    FormatLiteral(prefix, "map[%s]%s", [t, next]);
    assert prefix + level == prefix + "map[" + t + "]" + next;
  }

  /** Plain text followed by `map[%s]%s` is a format with two verbs. */
  lemma PrefixedMap(prefix: string)
    requires '%' !in prefix
    ensures VerbsOnly(prefix + "map[%s]%s") && Verbs(prefix + "map[%s]%s") == 2
  {
    VerbLiterals();
    NoVerbs(prefix);
    VerbsOnlyConcat(prefix, "map[%s]%s");
  }

  /** How the format literals of `GetVariable` break into pieces. */
  lemma FormatLiterals()
    ensures "]" + "%s" == "]%s" && "%s" + "]%s" == "%s]%s" && "map[" + "%s]%s" == "map[%s]%s"
  {
  }

  /** A lone `%s` prints its argument, or `%!s(MISSING)` without one. */
  lemma FormatLast(x: string)
    ensures VerbsOnly("%s") && Format("%s", [x]) == x && Format("%s", []) == "%!s(MISSING)"
  {
    assert "%s"[0] == '%' && "%s"[1] == 's' && "%s"[2..] == "";
    assert [x][1..] == [];
    assert Format("", []) == "";
  }

  /** `map[%s]%s` takes its key type from the first argument. */
  lemma FormatMap(t: string, args: seq<string>)
    ensures VerbsOnly("map[%s]%s") && VerbsOnly("]%s")
    ensures Format("map[%s]%s", [t] + args) == "map[" + t + Format("]%s", args)
  {
    FormatLiterals();
    FormatLast("");
    FormatLiteral("]", "%s", args);
    FormatVerb("]%s", t, args);
    FormatLiteral("map[", "%s]%s", [t] + args);
  }

  /** `]%s` closes the key type and takes the value type. */
  lemma FormatClose(next: string)
    ensures VerbsOnly("]%s") && Format("]%s", [next]) == "]" + next
  {
    FormatLiterals();
    FormatTail("]", next);
  }

  /** The last verb takes the variable's element type. */
  lemma FormatTail(p: string, x: string)
    requires '%' !in p
    ensures VerbsOnly(p + "%s") && Format(p + "%s", [x]) == p + x
  {
    FormatLast(x);
    FormatLiteral(p, "%s", [x]);
  }

  /** With no index, the element type fills the key verb and the value verb has no argument. */
  lemma FormatMissing(x: string)
    ensures VerbsOnly("map[%s]%s")
    ensures Format("map[%s]%s", [x]) == "map[" + x + "]%!s(MISSING)"
  {
    FormatLiterals();
    FormatLast(x);
    FormatLiteral("]", "%s", []);
    FormatMap(x, []);
    assert [x] + [] == [x];
    assert "map[" + x + ("]" + "%!s(MISSING)") == "map[" + x + "]%!s(MISSING)";
  }

  /** Once no index level is left, the loop fills `mapStr` with the element
      type at the next kept column and stops; with no kept column left it
      leaves `mapStr` as it is. */
  lemma {:induction false} VariableStops(types: seq<string>, skip: set<nat>, i: nat, index: int, mapStr: string, tail: string)
    requires 1 <= i && PlainTypes(types, skip) && VerbsOnly(mapStr) && index <= 0
    ensures VariableFrom(types, skip, i, index, mapStr, tail) ==
              if |KeptTypes(types, skip, i)| > 0 then Format(mapStr, [tail]) else mapStr
    decreases |types| - i
  {
    if i < |types| && i in skip {
      VariableStops(types, skip, i + 1, index, mapStr, tail);
    }
  }

  /** With `index` levels still to open, the loop nests one `map[T]` per kept
      column; then the element type follows, or the unfilled `%s` when the
      kept columns run out exactly, or the unfilled `map[%s]%s` when they run
      out earlier. */
  lemma {:induction false} VariableNests(types: seq<string>, skip: set<nat>, i: nat, index: int, prefix: string, tail: string)
    requires 1 <= i && PlainTypes(types, skip) && '%' !in prefix && index >= 1
    requires VerbsOnly(prefix + "map[%s]%s") && Verbs(prefix + "map[%s]%s") == 2
    ensures VariableFrom(types, skip, i, index, prefix + "map[%s]%s", tail) == Nested(KeptTypes(types, skip, i), index, prefix, tail)
    decreases |types| - i, 1
  {
    if i >= |types| {
      VariableNoColumns(types, skip, i, index, prefix, tail);
    } else if i in skip {
      VariableSkips(types, skip, i, index, prefix + "map[%s]%s", tail);
      VariableNests(types, skip, i + 1, index, prefix, tail);
    } else if index == 1 {
      VariableLastLevel(types, skip, i, prefix, tail);
    } else {
      VariableInnerLevel(types, skip, i, index, prefix, tail);
    }
  }

  /** Past the last column the loop leaves its type string as it is. */
  lemma VariableNoColumns(types: seq<string>, skip: set<nat>, i: nat, index: int, prefix: string, tail: string)
    requires 1 <= i && |types| <= i && PlainTypes(types, skip) && index >= 1
    requires VerbsOnly(prefix + "map[%s]%s") && Verbs(prefix + "map[%s]%s") == 2
    ensures VariableFrom(types, skip, i, index, prefix + "map[%s]%s", tail) == Nested(KeptTypes(types, skip, i), index, prefix, tail)
  {
    assert KeptTypes(types, skip, i) == [];
    assert prefix + Nest([]) + "map[%s]%s" == prefix + "map[%s]%s";
  }

  /** A skipped column changes neither the loop's type string nor the kept types. */
  lemma VariableSkips(types: seq<string>, skip: set<nat>, i: nat, index: int, mapStr: string, tail: string)
    requires 1 <= i < |types| && i in skip && PlainTypes(types, skip)
    requires VerbsOnly(mapStr) && (index > 0 ==> Verbs(mapStr) == 2)
    ensures VariableFrom(types, skip, i, index, mapStr, tail) == VariableFrom(types, skip, i + 1, index, mapStr, tail)
    ensures KeptTypes(types, skip, i) == KeptTypes(types, skip, i + 1)
  {
  }

  /** What `VariableNests` states the loop produces from the kept types `ts`. */
  function Nested(ts: seq<string>, index: int, prefix: string, tail: string): string
    requires index >= 0
  {
    if |ts| > index then prefix + Nest(ts[..index]) + tail
    else if |ts| == index then prefix + Nest(ts) + "%s"
    else prefix + Nest(ts) + "map[%s]%s"
  }

  /** The kept column that opens the last index level. */
  lemma {:induction false} VariableLastLevel(types: seq<string>, skip: set<nat>, i: nat, prefix: string, tail: string)
    requires 1 <= i < |types| && i !in skip && PlainTypes(types, skip) && '%' !in prefix
    requires VerbsOnly(prefix + "map[%s]%s") && Verbs(prefix + "map[%s]%s") == 2
    ensures VariableFrom(types, skip, i, 1, prefix + "map[%s]%s", tail) == Nested(KeptTypes(types, skip, i), 1, prefix, tail)
  {
    var p' := prefix + "map[" + types[i] + "]";
    KeptStep(types, skip, i, 1, prefix, tail);
    VariableEnds(types, skip, i + 1, p', tail);
    LastLevelNested(KeptTypes(types, skip, i + 1), types[i], prefix, tail);
  }

  /** A kept column that opens an index level with more levels after it. */
  lemma {:induction false} VariableInnerLevel(types: seq<string>, skip: set<nat>, i: nat, index: int, prefix: string, tail: string)
    requires 1 <= i < |types| && i !in skip && PlainTypes(types, skip) && '%' !in prefix && index > 1
    requires VerbsOnly(prefix + "map[%s]%s") && Verbs(prefix + "map[%s]%s") == 2
    ensures VariableFrom(types, skip, i, index, prefix + "map[%s]%s", tail) == Nested(KeptTypes(types, skip, i), index, prefix, tail)
    decreases |types| - i, 0
  {
    var p' := prefix + "map[" + types[i] + "]";
    KeptStep(types, skip, i, index, prefix, tail);
    VariableNests(types, skip, i + 1, index - 1, p', tail);
    InnerLevelNested(KeptTypes(types, skip, i + 1), types[i], index, prefix, tail);
  }

  /** One kept column of the loop while index levels are left: its type
      fills the key verb and the next level, or the element verb, the value verb. */
  lemma KeptStep(types: seq<string>, skip: set<nat>, i: nat, index: int, prefix: string, tail: string)
    requires 1 <= i < |types| && i !in skip && PlainTypes(types, skip) && '%' !in prefix && index > 0
    ensures VerbsOnly(prefix + "map[%s]%s") && Verbs(prefix + "map[%s]%s") == 2
    ensures '%' !in prefix + "map[" + types[i] + "]"
    ensures var p' := prefix + "map[" + types[i] + "]";
            var next := if index - 1 == 0 then "%s" else "map[%s]%s";
            && VerbsOnly(p' + next) && (index > 1 ==> Verbs(p' + next) == 2)
            && VariableFrom(types, skip, i, index, prefix + "map[%s]%s", tail) == VariableFrom(types, skip, i + 1, index - 1, p' + next, tail)
  {
    var t := types[i];
    assert '%' !in t;
    var next := if index - 1 == 0 then "%s" else "map[%s]%s";
    FormatNestStep(prefix, t, next);
    var p' := prefix + "map[" + t + "]";
    assert '%' !in p';
    if index > 1 {
      FormatNestStep(p', t, next);
    } else {
      FormatTail(p', tail);
    }
    FormatStep(prefix + "map[%s]%s", t, next);
    assert prefix + "map[" + t + "]" + next == p' + next;
  }

  /** After the last index level the loop puts the element type into the
      remaining verb at the next kept column, if there is one. */
  lemma VariableEnds(types: seq<string>, skip: set<nat>, i: nat, p: string, tail: string)
    requires 1 <= i && PlainTypes(types, skip) && '%' !in p
    ensures VerbsOnly(p + "%s")
    ensures VariableFrom(types, skip, i, 0, p + "%s", tail) == p + (if |KeptTypes(types, skip, i)| > 0 then tail else "%s")
  {
    FormatTail(p, tail);
    VariableStops(types, skip, i, 0, p + "%s", tail);
  }

  /** The last level's nesting is the kept column's `map[T]`, then the element type if a kept column follows. */
  lemma LastLevelNested(rest: seq<string>, t: string, prefix: string, tail: string)
    ensures Nested([t] + rest, 1, prefix, tail) == prefix + "map[" + t + "]" + (if |rest| > 0 then tail else "%s")
  {
    var ts := [t] + rest;
    var open := "map[" + t + "]";
    assert ts[..1] == [t] && [t][1..] == [];
    assert Nest([t]) == open + Nest([]) == open;
    if |rest| == 0 {
      assert ts == [t];
      assert prefix + open + "%s" == prefix + "map[" + t + "]" + "%s";
    } else {
      assert prefix + open + tail == prefix + "map[" + t + "]" + tail;
    }
  }

  /** An inner level's nesting is the kept column's `map[T]` followed by the nesting of the remaining levels. */
  lemma InnerLevelNested(rest: seq<string>, t: string, index: int, prefix: string, tail: string)
    requires index > 1
    ensures Nested([t] + rest, index, prefix, tail) == Nested(rest, index - 1, prefix + "map[" + t + "]", tail)
  {
    var ts := [t] + rest;
    var open := "map[" + t + "]";
    if |rest| > index - 1 {
      assert Nested(ts, index, prefix, tail) == Nested(rest, index - 1, prefix + open, tail) by {
        assert ts[..index] == [t] + rest[..index - 1];
        NestCons(t, rest[..index - 1]);
        Assoc(prefix, open, Nest(rest[..index - 1]));
      }
    } else {
      assert Nested(ts, index, prefix, tail) == Nested(rest, index - 1, prefix + open, tail) by {
        NestCons(t, rest);
        Assoc(prefix, open, Nest(rest));
      }
    }
  }

  lemma Assoc<T>(a: seq<T>, b: seq<T>, c: seq<T>)
    ensures a + b + c == a + (b + c)
  {
  }

  lemma NestCons(t: string, ts: seq<string>)
    ensures Nest([t] + ts) == "map[" + t + "]" + Nest(ts)
  {
    assert ([t] + ts)[1..] == ts;
  }

  /** `GetVariable` in full: with `n >= 1` index columns and more kept type
      columns than that, the data variable is the nesting of the first `n`
      kept types around `*_Name`; when the kept columns run out, the unfilled
      verbs stay in the text; with `n <= 0` the format's two verbs get one
      argument, so Go prints `map[*_Name]%!s(MISSING)`. */
  lemma GetVariableShape(sheet: Sheet, skip: set<nat>, indexCount: int, firstUpper: string -> string)
    requires |sheet| > TypeRow && |sheet[0]| > 1 && PlainTypes(sheet[TypeRow], skip)
    ensures var ts := KeptTypes(sheet[TypeRow], skip, 1);
            var tail := "*_" + firstUpper(sheet[0][1]);
            GetVariable(sheet, skip, indexCount, firstUpper) ==
              if indexCount <= 0 then (if |ts| > 0 then "map[" + tail + "]%!s(MISSING)" else "map[%s]%s")
              else Nested(ts, indexCount, "", tail)
  {
    var types := sheet[TypeRow];
    var tail := "*_" + firstUpper(sheet[0][1]);
    GetVariableIsLoop(sheet, skip, indexCount, firstUpper);
    if indexCount <= 0 {
      VariableStops(types, skip, 1, indexCount, "map[%s]%s", tail);
      FormatMissing(tail);
    } else {
      PrefixedMap("");
      assert "" + "map[%s]%s" == "map[%s]%s";
      VariableNests(types, skip, 1, indexCount, "", tail);
    }
  }

  /** The outer `%s` of `GetVariable` passes the loop's result through. */
  lemma GetVariableIsLoop(sheet: Sheet, skip: set<nat>, indexCount: int, firstUpper: string -> string)
    requires |sheet| > TypeRow && |sheet[0]| > 1 && PlainTypes(sheet[TypeRow], skip)
    ensures GetVariable(sheet, skip, indexCount, firstUpper) == VariableType(sheet, skip, indexCount, firstUpper)
  {
    FormatLast(VariableType(sheet, skip, indexCount, firstUpper));
  }

  /** With at least one index column and more kept columns than index columns,
      the data variable is exactly one `map[T]` per index column, outermost
      first, around the element type `*_Name`. */
  lemma GetVariableNests(sheet: Sheet, skip: set<nat>, indexCount: int, firstUpper: string -> string)
    requires |sheet| > TypeRow && |sheet[0]| > 1 && PlainTypes(sheet[TypeRow], skip)
    requires 1 <= indexCount < |KeptTypes(sheet[TypeRow], skip, 1)|
    ensures GetVariable(sheet, skip, indexCount, firstUpper) ==
              Nest(KeptTypes(sheet[TypeRow], skip, 1)[..indexCount]) + "*_" + firstUpper(sheet[0][1])
  {
    GetVariableShape(sheet, skip, indexCount, firstUpper);
    var ts := KeptTypes(sheet[TypeRow], skip, 1);
    assert "" + Nest(ts[..indexCount]) == Nest(ts[..indexCount]);
  }
}
