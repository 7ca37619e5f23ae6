/** The in-memory table the store builds from one full read of the sheet (a
    pandas DataFrame): ordered columns and rows, each row a cell per column.
    The operations here are the few table edits the store performs: the
    username lookup, assigning one cell (`df.at[i, col] = v`), appending a row
    (`pd.concat` with a one-row table), and keeping only some columns. */
module Tables {
  import opened Cells

  type Row = map<string, Cell>

  datatype Frame = Frame(columns: seq<string>, rows: seq<Row>)

  /** One `column: value` entry of a row literal or of a run of cell assignments. */
  datatype Assign = Assign(col: string, val: Cell)

  /** Column names are distinct and every row has exactly one cell per column. */
  ghost predicate WellFormed(f: Frame)
  {
    && Distinct(f.columns)
    && forall j, c :: 0 <= j < |f.rows| ==> (c in f.rows[j] <==> c in f.columns)
  }

  /** No cell is NaN. A sheet always holds such a table: a read never yields
      NaN, and a table holding NaN cannot be written back. */
  predicate NanFree(f: Frame)
  {
    forall j, c :: 0 <= j < |f.rows| && c in f.rows[j] ==> f.rows[j][c] != Missing
  }

  /** `df.empty`: no rows or no columns. */
  predicate IsEmpty(f: Frame)
  {
    |f.rows| == 0 || |f.columns| == 0
  }

  /** What a full read of a sheet holding `t` yields: `get_all_records()` gives
      no records when there are no data rows, and a table built from no
      records has no columns either. */
  function AsRead(t: Frame): (f: Frame)
    ensures WellFormed(t) ==> WellFormed(f)
    ensures |t.rows| > 0 ==> f == t
    ensures |t.rows| == 0 ==> f.columns == [] && f.rows == []
  {
    if |t.rows| == 0 then Frame([], []) else t
  }

  /** The test `df['username'] == username` on one row. */
  predicate Matches(r: Row, u: string)
  {
    "username" in r && r["username"] == Text(u)
  }

  function FirstMatchFrom(rows: seq<Row>, u: string, k: nat): (r: Option<nat>)
    requires k <= |rows|
    ensures r.Some? ==> k <= r.value < |rows| && Matches(rows[r.value], u)
    ensures r.Some? ==> forall j :: k <= j < r.value ==> !Matches(rows[j], u)
    ensures r.None? ==> forall j :: k <= j < |rows| ==> !Matches(rows[j], u)
    decreases |rows| - k
  {
    if k == |rows| then None
    else if Matches(rows[k], u) then Some(k)
    else FirstMatchFrom(rows, u, k + 1)
  }

  /** `df.index[df['username'] == username]` and its first element: the
      position of the first row holding `u`, or `None` when no row does. */
  function FirstMatch(f: Frame, u: string): (r: Option<nat>)
    ensures r.Some? ==> r.value < |f.rows| && Matches(f.rows[r.value], u)
    ensures r.Some? ==> forall j :: 0 <= j < r.value ==> !Matches(f.rows[j], u)
    ensures r.None? ==> forall j :: 0 <= j < |f.rows| ==> !Matches(f.rows[j], u)
  {
    FirstMatchFrom(f.rows, u, 0)
  }

  lemma {:induction false} FirstMatchFromSameUsers(f: Frame, g: Frame, u: string, k: nat)
    requires k <= |f.rows| <= |g.rows|
    requires forall j :: 0 <= j < |f.rows| ==> (Matches(f.rows[j], u) <==> Matches(g.rows[j], u))
    requires forall j :: |f.rows| <= j < |g.rows| ==> !Matches(g.rows[j], u)
    ensures FirstMatchFrom(g.rows, u, k) == FirstMatchFrom(f.rows, u, k)
    decreases |f.rows| - k
  {
    if k < |f.rows| {
      FirstMatchFromSameUsers(f, g, u, k + 1);
    }
  }

  /** The first search is decided by the username cells alone. */
  lemma FirstMatchSameUsers(f: Frame, g: Frame, u: string)
    requires |f.rows| <= |g.rows|
    requires forall j :: 0 <= j < |f.rows| ==> (Matches(f.rows[j], u) <==> Matches(g.rows[j], u))
    requires forall j :: |f.rows| <= j < |g.rows| ==> !Matches(g.rows[j], u)
    ensures FirstMatch(g, u) == FirstMatch(f, u)
  {
    FirstMatchFromSameUsers(f, g, u, 0);
  }

  // ---------------------------------------------------------------------------
  // Adding columns
  // ---------------------------------------------------------------------------

  /** A new column, NaN in every existing row. */
  function AddColumn(f: Frame, col: string): (g: Frame)
    requires WellFormed(f) && col !in f.columns
    ensures WellFormed(g) && g.columns == f.columns + [col] && |g.rows| == |f.rows|
    ensures forall j :: 0 <= j < |f.rows| ==> g.rows[j] == f.rows[j][col := Missing]
  {
    Frame(f.columns + [col], seq(|f.rows|, j requires 0 <= j < |f.rows| => f.rows[j][col := Missing]))
  }

  /** The columns `names` that `f` lacks, added in order, NaN in every row. */
  function AddColumns(f: Frame, names: seq<string>): (g: Frame)
    requires WellFormed(f)
    ensures WellFormed(g) && |g.rows| == |f.rows|
    ensures |f.columns| <= |g.columns| && g.columns[..|f.columns|] == f.columns
    ensures forall c :: c in g.columns <==> c in f.columns || c in names
    ensures forall j, c :: 0 <= j < |f.rows| && c in f.rows[j] ==> c in g.rows[j] && g.rows[j][c] == f.rows[j][c]
    ensures forall j, c :: 0 <= j < |f.rows| && c in g.rows[j] && c !in f.rows[j] ==> g.rows[j][c] == Missing
    decreases |names|
  {
    if names == [] then f
    else
      var h := if names[0] in f.columns then f else AddColumn(f, names[0]);
      assert forall c :: c in names <==> c == names[0] || c in names[1..];
      AddColumns(h, names[1..])
  }

  // ---------------------------------------------------------------------------
  // Assigning cells
  // ---------------------------------------------------------------------------

  function Keys(ps: seq<Assign>): (ks: seq<string>)
    ensures |ks| == |ps| && forall k :: 0 <= k < |ps| ==> ks[k] == ps[k].col
  {
    seq(|ps|, k requires 0 <= k < |ps| => ps[k].col)
  }

  /** `df.at[i, col] = v`: assigning a column the table lacks adds it, NaN in
      every other row. */
  function SetCell(f: Frame, i: nat, col: string, v: Cell): (g: Frame)
    requires WellFormed(f) && i < |f.rows|
    ensures WellFormed(g) && |g.rows| == |f.rows|
    ensures g.columns == if col in f.columns then f.columns else f.columns + [col]
    ensures col in g.rows[i] && g.rows[i][col] == v
    ensures forall j, c :: 0 <= j < |f.rows| && c in f.rows[j] && (j != i || c != col) ==> c in g.rows[j] && g.rows[j][c] == f.rows[j][c]
    ensures forall j, c :: 0 <= j < |f.rows| && c in g.rows[j] && c !in f.rows[j] && j != i ==> g.rows[j][c] == Missing
  {
    var h := if col in f.columns then f else AddColumn(f, col);
    Frame(h.columns, h.rows[i := h.rows[i][col := v]])
  }

  /** Cell (`j`, `c`) is not among those a run of assignments on row `i` sets. */
  predicate Untouched(j: int, i: int, c: string, ups: seq<Assign>)
  {
    j != i || c !in Keys(ups)
  }

  /** A run of `df.at[i, col] = v` statements on row `i`, in order. */
  function SetCells(f: Frame, i: nat, ups: seq<Assign>): (g: Frame)
    requires WellFormed(f) && i < |f.rows|
    ensures WellFormed(g) && |g.rows| == |f.rows|
    decreases |ups|
  {
    if ups == [] then f else SetCells(SetCell(f, i, ups[0].col, ups[0].val), i, ups[1..])
  }

  lemma SetCellsOne(f: Frame, i: nat, col: string, v: Cell)
    requires WellFormed(f) && i < |f.rows|
    ensures SetCells(f, i, [Assign(col, v)]) == SetCell(f, i, col, v)
  {
    assert [Assign(col, v)][1..] == [];
  }

  /** The header after assigning the columns `ks` in order: each one the
      header lacks is added at the end. */
  function ColumnsAfter(cols: seq<string>, ks: seq<string>): seq<string>
    decreases |ks|
  {
    if ks == [] then cols else ColumnsAfter(if ks[0] in cols then cols else cols + [ks[0]], ks[1..])
  }

  lemma {:induction false} ColumnsAfterGrow(cols: seq<string>, ks: seq<string>)
    ensures var r := ColumnsAfter(cols, ks);
      |cols| <= |r| && r[..|cols|] == cols && forall c :: c in r <==> c in cols || c in ks
    decreases |ks|
  {
    if ks != [] {
      var next := if ks[0] in cols then cols else cols + [ks[0]];
      ColumnsAfterGrow(next, ks[1..]);
      var r := ColumnsAfter(next, ks[1..]);
      assert r[..|cols|] == r[..|next|][..|cols|];
      assert ks == [ks[0]] + ks[1..];
    }
  }

  lemma {:induction false} SetCellsHeader(f: Frame, i: nat, ups: seq<Assign>)
    requires WellFormed(f) && i < |f.rows|
    ensures SetCells(f, i, ups).columns == ColumnsAfter(f.columns, Keys(ups))
    decreases |ups|
  {
    if ups != [] {
      var h := SetCell(f, i, ups[0].col, ups[0].val);
      SetCellsHeader(h, i, ups[1..]);
      assert Keys(ups)[0] == ups[0].col && Keys(ups)[1..] == Keys(ups[1..]);
    }
  }

  /** The run keeps the existing columns in front and adds the assigned ones. */
  lemma SetCellsColumns(f: Frame, i: nat, ups: seq<Assign>)
    requires WellFormed(f) && i < |f.rows|
    ensures var g := SetCells(f, i, ups);
      && |f.columns| <= |g.columns| && g.columns[..|f.columns|] == f.columns
      && (forall c :: c in g.columns <==> c in f.columns || c in Keys(ups))
  {
    SetCellsHeader(f, i, ups);
    ColumnsAfterGrow(f.columns, Keys(ups));
  }

  /** Every cell the run does not assign keeps its value. */
  lemma {:induction false} SetCellsKeeps(f: Frame, i: nat, ups: seq<Assign>, j: nat, c: string)
    requires WellFormed(f) && i < |f.rows| && j < |f.rows| && c in f.rows[j]
    requires j != i || c !in Keys(ups)
    ensures c in SetCells(f, i, ups).rows[j] && SetCells(f, i, ups).rows[j][c] == f.rows[j][c]
    decreases |ups|
  {
    if ups != [] {
      var h := SetCell(f, i, ups[0].col, ups[0].val);
      assert Keys(ups) == [ups[0].col] + Keys(ups[1..]);
      SetCellsKeeps(h, i, ups[1..], j, c);
    }
  }

  /** A column the run adds is NaN in every row but `i`. */
  lemma {:induction false} SetCellsNewMissing(f: Frame, i: nat, ups: seq<Assign>, j: nat, c: string)
    requires WellFormed(f) && i < |f.rows| && j < |f.rows| && j != i
    requires c in SetCells(f, i, ups).rows[j] && c !in f.rows[j]
    ensures SetCells(f, i, ups).rows[j][c] == Missing
    decreases |ups|
  {
    if ups != [] {
      var h := SetCell(f, i, ups[0].col, ups[0].val);
      if c in h.rows[j] {
        SetCellsKeeps(h, i, ups[1..], j, c);
      } else {
        SetCellsNewMissing(h, i, ups[1..], j, c);
      }
    }
  }

  /** When no column is assigned twice, each assigned cell holds its value. */
  lemma {:induction false} SetCellsAssigned(f: Frame, i: nat, ups: seq<Assign>, k: nat)
    requires WellFormed(f) && i < |f.rows| && k < |ups| && Distinct(Keys(ups))
    ensures ups[k].col in SetCells(f, i, ups).rows[i] && SetCells(f, i, ups).rows[i][ups[k].col] == ups[k].val
    decreases |ups|
  {
    var h := SetCell(f, i, ups[0].col, ups[0].val);
    assert Distinct(Keys(ups[1..])) by {
      forall a, b | 0 <= a < b < |ups[1..]| ensures Keys(ups[1..])[a] != Keys(ups[1..])[b] {
        assert Keys(ups[1..])[a] == Keys(ups)[a + 1];
        assert Keys(ups[1..])[b] == Keys(ups)[b + 1];
      }
    }
    if k == 0 {
      assert ups[0].col !in Keys(ups[1..]) by {
        forall m | 0 <= m < |ups[1..]| ensures Keys(ups[1..])[m] != ups[0].col {
          assert Keys(ups[1..])[m] == Keys(ups)[m + 1];
        }
      }
      SetCellsKeeps(h, i, ups[1..], i, ups[0].col);
    } else {
      assert ups[k] == ups[1..][k - 1];
      SetCellsAssigned(h, i, ups[1..], k - 1);
    }
  }

  // ---------------------------------------------------------------------------
  // Appending a row
  // ---------------------------------------------------------------------------

  /** The value a row literal gives column `c`, NaN when it names no such column. */
  function ValueOf(ps: seq<Assign>, c: string): Cell
  {
    if ps == [] then Missing else if ps[0].col == c then ps[0].val else ValueOf(ps[1..], c)
  }

  lemma {:induction false} ValueOfAt(ps: seq<Assign>, k: nat)
    requires k < |ps| && Distinct(Keys(ps))
    ensures ValueOf(ps, ps[k].col) == ps[k].val
  {
    if k > 0 {
      assert ps[0].col == Keys(ps)[0] != Keys(ps)[k] == ps[k].col;
      assert Keys(ps[1..]) == Keys(ps)[1..];
      ValueOfAt(ps[1..], k - 1);
    }
  }

  lemma {:induction false} ValueOfAbsent(ps: seq<Assign>, c: string)
    requires c !in Keys(ps)
    ensures ValueOf(ps, c) == Missing
  {
    if ps != [] {
      assert Keys(ps[1..]) == Keys(ps)[1..];
      ValueOfAbsent(ps[1..], c);
    }
  }

  /** `pd.concat([df, pd.DataFrame([row])], ignore_index=True)`: the columns
      the literal adds come after the existing ones, the existing rows get NaN
      in them, and the new row gets NaN in every column it does not name. */
  function AppendRow(f: Frame, ps: seq<Assign>): (g: Frame)
    requires WellFormed(f) && Distinct(Keys(ps))
    ensures WellFormed(g) && |g.rows| == |f.rows| + 1
    ensures |f.columns| <= |g.columns| && g.columns[..|f.columns|] == f.columns
    ensures forall c :: c in g.columns <==> c in f.columns || c in Keys(ps)
    ensures forall j, c :: 0 <= j < |f.rows| && c in f.rows[j] ==> c in g.rows[j] && g.rows[j][c] == f.rows[j][c]
    ensures forall j, c :: 0 <= j < |f.rows| && c in g.rows[j] && c !in f.rows[j] ==> g.rows[j][c] == Missing
    ensures forall k :: 0 <= k < |ps| ==> ps[k].col in g.rows[|f.rows|] && g.rows[|f.rows|][ps[k].col] == ps[k].val
    ensures forall c :: c in g.rows[|f.rows|] && c !in Keys(ps) ==> g.rows[|f.rows|][c] == Missing
  {
    var h := AddColumns(f, Keys(ps));
    var last: Row := map c | c in h.columns :: ValueOf(ps, c);
    forall k | 0 <= k < |ps| ensures last[ps[k].col] == ps[k].val {
      ValueOfAt(ps, k);
    }
    forall c | c in last && c !in Keys(ps) ensures last[c] == Missing {
      ValueOfAbsent(ps, c);
    }
    Frame(h.columns, h.rows + [last])
  }

  // ---------------------------------------------------------------------------
  // Update-or-insert by username
  // ---------------------------------------------------------------------------

  /** The skeleton every setter of the store shares: find the first row of
      `u`; when there is none append the row literal `added`, otherwise run
      the assignments `ups` on that row. */
  function Upsert(f: Frame, u: string, added: seq<Assign>, ups: seq<Assign>): (g: Frame)
    requires WellFormed(f) && Distinct(Keys(added))
    ensures WellFormed(g) && |g.rows| >= |f.rows|
  {
    match FirstMatch(f, u)
    case None => AppendRow(f, added)
    case Some(i) => SetCells(f, i, ups)
  }

  /** The row literal of a new user holds their username. */
  predicate NamesUser(added: seq<Assign>, u: string)
  {
    exists k :: 0 <= k < |added| && added[k] == Assign("username", Text(u))
  }

  /** All of the run's effects on the table at once. */
  lemma SetCellsEffect(f: Frame, i: nat, ups: seq<Assign>)
    requires WellFormed(f) && i < |f.rows| && Distinct(Keys(ups))
    ensures var g := SetCells(f, i, ups);
      && |f.columns| <= |g.columns| && g.columns[..|f.columns|] == f.columns
      && (forall c :: c in g.columns <==> c in f.columns || c in Keys(ups))
      && (forall k :: 0 <= k < |ups| ==> ups[k].col in g.rows[i] && g.rows[i][ups[k].col] == ups[k].val)
      && (forall j, c :: 0 <= j < |f.rows| && c in f.rows[j] && Untouched(j, i, c, ups) ==> c in g.rows[j] && g.rows[j][c] == f.rows[j][c])
      && (forall j, c :: 0 <= j < |f.rows| && c in g.rows[j] && c !in f.rows[j] && j != i ==> g.rows[j][c] == Missing)
  {
    SetCellsColumns(f, i, ups);
    forall k | 0 <= k < |ups|
      ensures ups[k].col in SetCells(f, i, ups).rows[i] && SetCells(f, i, ups).rows[i][ups[k].col] == ups[k].val
    {
      SetCellsAssigned(f, i, ups, k);
    }
    forall j, c | 0 <= j < |f.rows| && c in f.rows[j] && Untouched(j, i, c, ups)
      ensures c in SetCells(f, i, ups).rows[j] && SetCells(f, i, ups).rows[j][c] == f.rows[j][c]
    {
      SetCellsKeeps(f, i, ups, j, c);
    }
    forall j, c | 0 <= j < |f.rows| && c in SetCells(f, i, ups).rows[j] && c !in f.rows[j] && j != i
      ensures SetCells(f, i, ups).rows[j][c] == Missing
    {
      SetCellsNewMissing(f, i, ups, j, c);
    }
  }

  /** Upsert on a user who has a row: no row is added, exactly the assigned
      cells of that row take the new values, every other cell keeps its value,
      and a column the assignments add is NaN in every other row. */
  lemma UpsertExisting(f: Frame, u: string, added: seq<Assign>, ups: seq<Assign>)
    requires WellFormed(f) && Distinct(Keys(added)) && Distinct(Keys(ups))
    requires FirstMatch(f, u).Some?
    ensures var g, i := Upsert(f, u, added, ups), FirstMatch(f, u).value;
      && WellFormed(g) && |g.rows| == |f.rows|
      && |f.columns| <= |g.columns| && g.columns[..|f.columns|] == f.columns
      && (forall c :: c in g.columns <==> c in f.columns || c in Keys(ups))
      && (forall k :: 0 <= k < |ups| ==> ups[k].col in g.rows[i] && g.rows[i][ups[k].col] == ups[k].val)
      && (forall j, c :: 0 <= j < |f.rows| && c in f.rows[j] && Untouched(j, i, c, ups) ==> c in g.rows[j] && g.rows[j][c] == f.rows[j][c])
      && (forall j, c :: 0 <= j < |f.rows| && c in g.rows[j] && c !in f.rows[j] && j != i ==> g.rows[j][c] == Missing)
  {
    SetCellsEffect(f, FirstMatch(f, u).value, ups);
  }

  /** Upsert on a user without a row: exactly one row is appended at the end
      holding the literal's values and NaN elsewhere; every earlier cell keeps
      its value. */
  lemma UpsertNew(f: Frame, u: string, added: seq<Assign>, ups: seq<Assign>)
    requires WellFormed(f) && Distinct(Keys(added))
    requires FirstMatch(f, u).None?
    ensures var g := Upsert(f, u, added, ups);
      && WellFormed(g) && |g.rows| == |f.rows| + 1
      && g.columns[..|f.columns|] == f.columns
      && (forall j, c :: 0 <= j < |f.rows| && c in f.rows[j] ==> c in g.rows[j] && g.rows[j][c] == f.rows[j][c])
      && (forall k :: 0 <= k < |added| ==> added[k].col in g.rows[|f.rows|] && g.rows[|f.rows|][added[k].col] == added[k].val)
      && (forall c :: c in g.rows[|f.rows|] && c !in Keys(added) ==> g.rows[|f.rows|][c] == Missing)
  {
  }

  /** Two rows hold the same username text. */
  predicate SameUser(a: Row, b: Row)
  {
    "username" in a && "username" in b && a["username"].Text? && a["username"] == b["username"]
  }

  /** At most one row per username: the invariant the store's
      look-up-else-append discipline is meant to keep. */
  predicate UniqueUsers(f: Frame)
  {
    forall j, k :: 0 <= j < k < |f.rows| ==> !SameUser(f.rows[j], f.rows[k])
  }

  /** Upsert keeps at most one row per username, and afterwards `u` has a row. */
  lemma UpsertKeepsUniqueUsers(f: Frame, u: string, added: seq<Assign>, ups: seq<Assign>)
    requires WellFormed(f) && "username" in f.columns && Distinct(Keys(added))
    requires NamesUser(added, u) && "username" !in Keys(ups)
    requires UniqueUsers(f)
    ensures UniqueUsers(Upsert(f, u, added, ups))
    ensures FirstMatch(Upsert(f, u, added, ups), u).Some?
  {
    var g := Upsert(f, u, added, ups);
    assert forall j :: 0 <= j < |f.rows| ==> "username" in f.rows[j];
    forall j | 0 <= j < |f.rows| ensures "username" in g.rows[j] && g.rows[j]["username"] == f.rows[j]["username"] {
      if FirstMatch(f, u).Some? {
        SetCellsKeeps(f, FirstMatch(f, u).value, ups, j, "username");
      }
    }
    match FirstMatch(f, u)
    case Some(i) =>
      assert Matches(g.rows[i], u);
    case None =>
      var k :| 0 <= k < |added| && added[k] == Assign("username", Text(u));
      assert Matches(g.rows[|f.rows|], u);
      forall j | 0 <= j < |f.rows| ensures !SameUser(g.rows[j], g.rows[|f.rows|]) {
        assert !Matches(f.rows[j], u);
      }
  }

  /** Upsert leaves the username cell of every existing row as it was. */
  lemma UpsertKeepsUsernames(f: Frame, u: string, added: seq<Assign>, ups: seq<Assign>)
    requires WellFormed(f) && "username" in f.columns && Distinct(Keys(added))
    requires "username" !in Keys(ups)
    ensures var g := Upsert(f, u, added, ups);
      && |f.rows| <= |g.rows|
      && forall j :: 0 <= j < |f.rows| ==>
           "username" in f.rows[j] && "username" in g.rows[j] && g.rows[j]["username"] == f.rows[j]["username"]
  {
    var g := Upsert(f, u, added, ups);
    forall j | 0 <= j < |f.rows| ensures "username" in g.rows[j] && g.rows[j]["username"] == f.rows[j]["username"] {
      assert "username" in f.rows[j];
      if FirstMatch(f, u).Some? {
        SetCellsKeeps(f, FirstMatch(f, u).value, ups, j, "username");
      }
    }
  }

  /** On a table without NaN, the upsert has rows and no NaN username cell. */
  lemma UpsertUsernamesKnown(f: Frame, u: string, added: seq<Assign>, ups: seq<Assign>)
    requires WellFormed(f) && NanFree(f) && "username" in f.columns && Distinct(Keys(added))
    requires NamesUser(added, u) && "username" !in Keys(ups)
    ensures var g := Upsert(f, u, added, ups);
      && 0 < |g.rows|
      && forall j :: 0 <= j < |g.rows| ==> "username" in g.rows[j] && g.rows[j]["username"] != Missing
  {
    var g := Upsert(f, u, added, ups);
    UpsertKeepsUsernames(f, u, added, ups);
    UpsertFinds(f, u, added, ups);
    forall j | 0 <= j < |g.rows| ensures "username" in g.rows[j] && g.rows[j]["username"] != Missing {
      if j >= |f.rows| {
        assert Matches(g.rows[FirstMatch(g, u).value], u);
      }
    }
  }

  /** A cell of an existing row that the assignments do not name keeps its
      value, on every row including the user's own. */
  lemma UpsertKeepsCell(f: Frame, u: string, added: seq<Assign>, ups: seq<Assign>, j: nat, c: string)
    requires WellFormed(f) && Distinct(Keys(added))
    requires j < |f.rows| && c in f.rows[j] && c !in Keys(ups)
    ensures var g := Upsert(f, u, added, ups); c in g.rows[j] && g.rows[j][c] == f.rows[j][c]
  {
    if FirstMatch(f, u).Some? {
      SetCellsKeeps(f, FirstMatch(f, u).value, ups, j, c);
    }
  }

  /** Row `j` of `g` keeps every cell row `j` of `f` has, and any cell it gains
      is NaN. */
  ghost predicate RowKept(f: Frame, g: Frame, j: nat)
  {
    && j < |f.rows| && j < |g.rows|
    && (forall c :: c in f.rows[j] ==> c in g.rows[j] && g.rows[j][c] == f.rows[j][c])
    && (forall c :: c in g.rows[j] && c !in f.rows[j] ==> g.rows[j][c] == Missing)
  }

  /** Another user's record: the search for `v` finds the same row, and that
      row keeps all its cells, gaining at most NaN cells in new columns. */
  ghost predicate SameRecord(f: Frame, g: Frame, v: string)
  {
    && FirstMatch(g, v) == FirstMatch(f, v)
    && (FirstMatch(f, v).Some? ==> RowKept(f, g, FirstMatch(f, v).value))
  }

  /** In a record kept that way, a column the table gained holds NaN. */
  lemma SameRecordNewColumn(f: Frame, g: Frame, v: string, c: string)
    requires WellFormed(f) && WellFormed(g) && SameRecord(f, g, v) && FirstMatch(f, v).Some?
    requires c in g.columns && c !in f.columns
    ensures c in g.rows[FirstMatch(g, v).value] && g.rows[FirstMatch(g, v).value][c] == Missing
  {
    var j := FirstMatch(f, v).value;
    assert c in g.rows[j] && c !in f.rows[j];
  }

  /** An upsert for `u` leaves the record of every other user `v` as it was. */
  lemma UpsertIsolation(f: Frame, u: string, added: seq<Assign>, ups: seq<Assign>, v: string)
    requires WellFormed(f) && "username" in f.columns && Distinct(Keys(added))
    requires NamesUser(added, u) && "username" !in Keys(ups) && u != v
    ensures SameRecord(f, Upsert(f, u, added, ups), v)
  {
    var g := Upsert(f, u, added, ups);
    UpsertKeepsUsernames(f, u, added, ups);
    match FirstMatch(f, u)
    case None =>
      var k :| 0 <= k < |added| && added[k] == Assign("username", Text(u));
      assert !Matches(g.rows[|f.rows|], v);
      FirstMatchSameUsers(f, g, v);
    case Some(i) =>
      FirstMatchSameUsers(f, g, v);
      if FirstMatch(f, v).Some? {
        var j := FirstMatch(f, v).value;
        assert j != i by { assert f.rows[j]["username"] == Text(v) != Text(u) == f.rows[i]["username"]; }
        forall c | c in f.rows[j] ensures c in g.rows[j] && g.rows[j][c] == f.rows[j][c] {
          SetCellsKeeps(f, i, ups, j, c);
        }
        forall c | c in g.rows[j] && c !in f.rows[j] ensures g.rows[j][c] == Missing {
          SetCellsNewMissing(f, i, ups, j, c);
        }
      }
  }

  /** Appending a row for `u` leaves the record of every other user `v` as it
      was, and the search for `u`, which had no row, finds the new last row. */
  /** The search for a user without a row finds the row appended for them. */
  lemma AppendRowFinds(f: Frame, u: string, ps: seq<Assign>)
    requires WellFormed(f) && Distinct(Keys(ps)) && NamesUser(ps, u)
    requires FirstMatch(f, u).None?
    ensures FirstMatch(AppendRow(f, ps), u) == Some(|f.rows|)
  {
    var g := AppendRow(f, ps);
    var k :| 0 <= k < |ps| && ps[k] == Assign("username", Text(u));
    assert Matches(g.rows[|f.rows|], u);
    forall j | 0 <= j < |f.rows| ensures !Matches(g.rows[j], u) {
      assert !Matches(f.rows[j], u);
      assert "username" in g.rows[j] && "username" !in f.rows[j] ==> g.rows[j]["username"] == Missing;
    }
  }

  lemma AppendRowIsolation(f: Frame, u: string, ps: seq<Assign>, v: string)
    requires WellFormed(f) && Distinct(Keys(ps)) && NamesUser(ps, u) && u != v
    requires FirstMatch(f, u).None?
    ensures SameRecord(f, AppendRow(f, ps), v)
    ensures FirstMatch(AppendRow(f, ps), u) == Some(|f.rows|)
  {
    var g := AppendRow(f, ps);
    var k :| 0 <= k < |ps| && ps[k] == Assign("username", Text(u));
    assert Matches(g.rows[|f.rows|], u) && !Matches(g.rows[|f.rows|], v);
    forall j | 0 <= j < |f.rows|
      ensures (Matches(f.rows[j], v) <==> Matches(g.rows[j], v)) && !Matches(g.rows[j], u)
    {
      assert !Matches(f.rows[j], u);
      assert "username" in g.rows[j] && "username" !in f.rows[j] ==> g.rows[j]["username"] == Missing;
    }
    FirstMatchSameUsers(f, g, v);
  }

  /** After an upsert for `u`, the search for `u` finds the row written: the
      existing one, or the appended last row. */
  lemma UpsertFinds(f: Frame, u: string, added: seq<Assign>, ups: seq<Assign>)
    requires WellFormed(f) && "username" in f.columns && Distinct(Keys(added))
    requires NamesUser(added, u) && "username" !in Keys(ups)
    ensures var g := Upsert(f, u, added, ups);
      FirstMatch(g, u) == if FirstMatch(f, u).Some? then FirstMatch(f, u) else Some(|f.rows|)
  {
    var g := Upsert(f, u, added, ups);
    UpsertKeepsUsernames(f, u, added, ups);
    match FirstMatch(f, u)
    case None =>
      var k :| 0 <= k < |added| && added[k] == Assign("username", Text(u));
      assert Matches(g.rows[|f.rows|], u);
      var r := FirstMatch(g, u);
      assert r.Some? && r.value == |f.rows| by {
        forall j | 0 <= j < |f.rows| ensures !Matches(g.rows[j], u) {
          assert !Matches(f.rows[j], u);
        }
      }
    case Some(i) =>
      FirstMatchSameUsers(f, g, u);
  }

  /** Reading back, through the search for `u`, a cell that both the new-row
      literal and the assignments set to `val` gives `val`. */
  lemma UpsertReadBack(f: Frame, u: string, added: seq<Assign>, ups: seq<Assign>, a: nat, b: nat)
    requires WellFormed(f) && "username" in f.columns && Distinct(Keys(added)) && Distinct(Keys(ups))
    requires NamesUser(added, u) && "username" !in Keys(ups)
    requires a < |added| && b < |ups| && added[a] == ups[b]
    ensures var g := Upsert(f, u, added, ups);
      && FirstMatch(g, u).Some? && ups[b].col in g.columns
      && g.rows[FirstMatch(g, u).value][ups[b].col] == ups[b].val
  {
    UpsertFinds(f, u, added, ups);
    var g := Upsert(f, u, added, ups);
    if FirstMatch(f, u).Some? {
      SetCellsAssigned(f, FirstMatch(f, u).value, ups, b);
    }
    assert ups[b].col in g.rows[FirstMatch(g, u).value];
  }

  /** Every value the assignments give is a value, not NaN. */
  predicate ValuesOnly(ps: seq<Assign>)
  {
    forall k :: 0 <= k < |ps| ==> ps[k].val != Missing
  }

  /** Every column the assignments name is already a column of `f`. */
  predicate ColumnsKnown(f: Frame, ps: seq<Assign>)
  {
    forall k :: 0 <= k < |ps| ==> ps[k].col in f.columns
  }

  /** No cell the upsert writes or adds is NaN: on an existing row every
      assigned value is a value and, unless that row is the only one, every
      assigned column exists already; a new row names every existing column,
      gives values only and, unless the table had no rows, adds no column. */
  predicate UpsertNoNaN(f: Frame, u: string, added: seq<Assign>, ups: seq<Assign>)
  {
    if FirstMatch(f, u).Some? then
      ValuesOnly(ups) && (|f.rows| == 1 || ColumnsKnown(f, ups))
    else
      && ValuesOnly(added) && (forall c :: c in f.columns ==> c in Keys(added))
      && (|f.rows| == 0 || ColumnsKnown(f, added))
  }

  /** A run of assignments that leaves no NaN assigns values only and, when
      the table has other rows, adds no column (a new column is NaN in every
      other row). */
  lemma SetCellsNanFreeNeeds(f: Frame, i: nat, ups: seq<Assign>)
    requires WellFormed(f) && i < |f.rows| && Distinct(Keys(ups))
    requires NanFree(SetCells(f, i, ups))
    ensures ValuesOnly(ups) && (|f.rows| == 1 || ColumnsKnown(f, ups))
  {
    var g := SetCells(f, i, ups);
    SetCellsEffect(f, i, ups);
    forall k | 0 <= k < |ups| ensures ups[k].val != Missing {
      assert g.rows[i][ups[k].col] == ups[k].val;
    }
    if |f.rows| != 1 {
      var j := if i == 0 then 1 else 0;
      forall k | 0 <= k < |ups| ensures ups[k].col in f.columns {
        assert Keys(ups)[k] == ups[k].col;
        assert ups[k].col in g.columns && ups[k].col in g.rows[j];
        assert g.rows[j][ups[k].col] != Missing;
      }
    }
  }

  /** And such a run on a table without NaN leaves none. */
  lemma SetCellsNanFreeSuffices(f: Frame, i: nat, ups: seq<Assign>)
    requires WellFormed(f) && NanFree(f) && i < |f.rows| && Distinct(Keys(ups))
    requires ValuesOnly(ups) && (|f.rows| == 1 || ColumnsKnown(f, ups))
    ensures NanFree(SetCells(f, i, ups))
  {
    var g := SetCells(f, i, ups);
    SetCellsEffect(f, i, ups);
    forall j, c | 0 <= j < |g.rows| && c in g.rows[j] ensures g.rows[j][c] != Missing {
      if !(c in f.rows[j] && Untouched(j, i, c, ups)) {
        assert c in Keys(ups);
        var k :| 0 <= k < |ups| && Keys(ups)[k] == c;
        assert j == i;
        assert g.rows[i][ups[k].col] == ups[k].val;
      }
    }
  }

  /** An appended literal that leaves no NaN names every column, gives values
      only and, when the table has rows, adds no column (a new column is NaN
      in every earlier row). */
  lemma AppendRowNanFreeNeeds(f: Frame, ps: seq<Assign>)
    requires WellFormed(f) && Distinct(Keys(ps))
    requires NanFree(AppendRow(f, ps))
    ensures ValuesOnly(ps) && (forall c :: c in f.columns ==> c in Keys(ps))
    ensures |f.rows| == 0 || ColumnsKnown(f, ps)
  {
    var g := AppendRow(f, ps);
    var n := |f.rows|;
    forall k | 0 <= k < |ps| ensures ps[k].val != Missing {
      assert g.rows[n][ps[k].col] == ps[k].val;
    }
    forall c | c in f.columns ensures c in Keys(ps) {
      assert c in g.columns && c in g.rows[n];
      assert g.rows[n][c] != Missing;
    }
    if n != 0 {
      forall k | 0 <= k < |ps| ensures ps[k].col in f.columns {
        assert Keys(ps)[k] == ps[k].col;
        assert ps[k].col in g.columns && ps[k].col in g.rows[0];
        assert g.rows[0][ps[k].col] != Missing;
      }
    }
  }

  /** And such a literal appended to a table without NaN leaves none. */
  lemma AppendRowNanFreeSuffices(f: Frame, ps: seq<Assign>)
    requires WellFormed(f) && NanFree(f) && Distinct(Keys(ps))
    requires ValuesOnly(ps) && (forall c :: c in f.columns ==> c in Keys(ps))
    requires |f.rows| == 0 || ColumnsKnown(f, ps)
    ensures NanFree(AppendRow(f, ps))
  {
    var g := AppendRow(f, ps);
    var n := |f.rows|;
    forall j, c | 0 <= j < |g.rows| && c in g.rows[j] ensures g.rows[j][c] != Missing {
      if j < n {
        assert c in f.rows[j] by {
          assert c in g.columns;
          if c in Keys(ps) {
            var k :| 0 <= k < |ps| && Keys(ps)[k] == c;
            assert ps[k].col in f.columns;
          }
        }
      } else {
        assert c in Keys(ps);
        var k :| 0 <= k < |ps| && Keys(ps)[k] == c;
        assert g.rows[n][ps[k].col] == ps[k].val;
      }
    }
  }

  /** On a table without NaN, the upsert leaves none exactly when it adds
      none in the sense of `UpsertNoNaN`. */
  lemma UpsertNanFree(f: Frame, u: string, added: seq<Assign>, ups: seq<Assign>)
    requires WellFormed(f) && NanFree(f) && Distinct(Keys(added)) && Distinct(Keys(ups))
    ensures NanFree(Upsert(f, u, added, ups)) <==> UpsertNoNaN(f, u, added, ups)
  {
    match FirstMatch(f, u)
    case None =>
      if NanFree(Upsert(f, u, added, ups)) { AppendRowNanFreeNeeds(f, added); }
      if UpsertNoNaN(f, u, added, ups) { AppendRowNanFreeSuffices(f, added); }
    case Some(i) =>
      if NanFree(Upsert(f, u, added, ups)) { SetCellsNanFreeNeeds(f, i, ups); }
      if UpsertNoNaN(f, u, added, ups) { SetCellsNanFreeSuffices(f, i, ups); }
  }

  /** A record kept in a table without NaN gained no cell: the row is the
      same. */
  lemma SameRecordExact(f: Frame, g: Frame, v: string)
    requires WellFormed(f) && WellFormed(g) && SameRecord(f, g, v) && NanFree(g)
    ensures FirstMatch(f, v).Some? ==> g.rows[FirstMatch(f, v).value] == f.rows[FirstMatch(f, v).value]
  {
    if FirstMatch(f, v).Some? {
      var j := FirstMatch(f, v).value;
      forall c | c in g.rows[j] ensures c in f.rows[j] {
        assert g.rows[j][c] != Missing;
      }
      assert g.rows[j].Keys == f.rows[j].Keys;
    }
  }

  // ---------------------------------------------------------------------------
  // Filling NaN
  // ---------------------------------------------------------------------------

  /** `df.fillna("")`: every NaN cell becomes empty text. */
  function FillNaN(f: Frame): (g: Frame)
    ensures NanFree(g) && (WellFormed(f) ==> WellFormed(g))
    ensures g.columns == f.columns && |g.rows| == |f.rows|
    ensures forall j, c :: 0 <= j < |f.rows| ==> (c in g.rows[j] <==> c in f.rows[j])
    ensures forall j, c :: 0 <= j < |f.rows| && c in f.rows[j] ==>
      g.rows[j][c] == if f.rows[j][c] == Missing then Text("") else f.rows[j][c]
  {
    Frame(f.columns, seq(|f.rows|, j requires 0 <= j < |f.rows| =>
      map c | c in f.rows[j] :: if f.rows[j][c] == Missing then Text("") else f.rows[j][c]))
  }

  /** Filling a table without NaN changes nothing. */
  lemma FillNaNNanFree(f: Frame)
    requires NanFree(f)
    ensures FillNaN(f) == f
  {
    var g := FillNaN(f);
    forall j | 0 <= j < |f.rows| ensures g.rows[j] == f.rows[j] {
      assert g.rows[j].Keys == f.rows[j].Keys;
    }
  }

  /** When no username cell is NaN, filling leaves every search as it was. */
  lemma FillNaNMatches(f: Frame, v: string)
    requires forall j :: 0 <= j < |f.rows| ==> "username" in f.rows[j] && f.rows[j]["username"] != Missing
    ensures FirstMatch(FillNaN(f), v) == FirstMatch(f, v)
  {
    var g := FillNaN(f);
    forall j | 0 <= j < |f.rows| ensures Matches(f.rows[j], v) <==> Matches(g.rows[j], v) {
    }
    FirstMatchSameUsers(f, g, v);
  }

  /** Appending a NaN-free row for a new user to a NaN-free table and then
      filling: every old cell is kept, the cells the append added read `""`,
      the new row holds its assignments, and each user is found where they
      were (the new user at the end). */
  lemma FilledAppend(f: Frame, u: string, ps: seq<Assign>)
    requires WellFormed(f) && NanFree(f) && Distinct(Keys(ps)) && ValuesOnly(ps)
    requires NamesUser(ps, u) && FirstMatch(f, u).None?
    requires f.rows == [] || "username" in f.columns
    ensures var g := FillNaN(AppendRow(f, ps));
      && WellFormed(g) && |g.rows| == |f.rows| + 1
      && (forall c :: c in g.columns <==> c in f.columns || c in Keys(ps))
      && (forall j, c :: 0 <= j < |f.rows| && c in f.rows[j] ==> c in g.rows[j] && g.rows[j][c] == f.rows[j][c])
      && (forall j, c :: 0 <= j < |f.rows| && c in g.rows[j] && c !in f.rows[j] ==> g.rows[j][c] == Text(""))
      && (forall k :: 0 <= k < |ps| ==> ps[k].col in g.rows[|f.rows|] && g.rows[|f.rows|][ps[k].col] == ps[k].val)
      && FirstMatch(g, u) == Some(|f.rows|)
      && (forall v :: v != u ==> FirstMatch(g, v) == FirstMatch(f, v))
  {
    var h := AppendRow(f, ps);
    forall j | 0 <= j < |h.rows| ensures "username" in h.rows[j] && h.rows[j]["username"] != Missing {
      if j < |f.rows| {
        assert "username" in f.rows[j];
      } else {
        var k :| 0 <= k < |ps| && ps[k] == Assign("username", Text(u));
      }
    }
    AppendRowFinds(f, u, ps);
    FillNaNMatches(h, u);
    forall v | v != u ensures FirstMatch(FillNaN(h), v) == FirstMatch(f, v) {
      AppendRowIsolation(f, u, ps, v);
      FillNaNMatches(h, v);
    }
  }

  // ---------------------------------------------------------------------------
  // Keeping some columns
  // ---------------------------------------------------------------------------

  /** `df[cols]` for columns `df` has. */
  function Project(f: Frame, cols: seq<string>): (g: Frame)
    requires WellFormed(f) && Distinct(cols) && forall c :: c in cols ==> c in f.columns
    ensures WellFormed(g) && g.columns == cols && |g.rows| == |f.rows|
    ensures forall j, c :: 0 <= j < |f.rows| && c in cols ==> c in g.rows[j] && g.rows[j][c] == f.rows[j][c]
  {
    Frame(cols, seq(|f.rows|, j requires 0 <= j < |f.rows| => map c | c in cols :: f.rows[j][c]))
  }
}
