/** Properties of the store in database.py: what a write makes the matching
    read return, what it leaves alone, when it clears the sheet instead, and
    what a full reset does. Each is stated on the table the sheet holds before
    and after the write, that is on the committed outcome (`Commit`): a write
    whose table holds NaN leaves the sheet empty. */
module DatabaseLaws {
  import opened Cells
  import opened Codec
  import opened Tables
  import opened Database

  // ---------------------------------------------------------------------------
  // Reading back what was written
  // ---------------------------------------------------------------------------

  /** `set_convidados` fails exactly when the sheet has data but no `username`
      column; otherwise it either clears the sheet or stores a table on which
      `get_convidados` returns the list written exactly when it is not the
      single empty name and no name holds a comma. */
  lemma GuestsRoundTrip(t: Frame, u: string, guests: seq<string>)
    requires WellFormed(t)
    ensures var o := Commit(ConvidadosWrite(AsRead(t), u, guests));
      && (o.Failed? <==> !IsEmpty(t) && "username" !in t.columns)
      && (!o.Failed? ==> o.Written? || o.Wiped?)
      && (o.Written? ==>
           (GetConvidados(AsRead(o.table), u) == guests <==> guests != [""] && NoSep(guests, ',')))
  {
    var f := AsRead(t);
    var g0 := if IsEmpty(f) then Frame(GuestColumns, []) else f;
    var added, ups := GuestRow(u, guests), GuestUpdates(guests);
    assert Keys(added) == GuestColumns;
    assert Keys(ups) == ["convidados"];
    if "username" in g0.columns {
      assert NamesUser(added, u) by { assert added[0] == Assign("username", Text(u)); }
      UpsertReadBack(g0, u, added, ups, 1, 0);
      ListRoundTrip(guests, ',');
    }
  }

  /** `set_checklist` fails exactly when the sheet has no data or no
      `username` column; otherwise it clears the sheet or stores a table on
      which `get_checklist` returns the statuses written, and the tasks
      written exactly when the list is not the single empty task and no task
      holds a ';'. */
  lemma ChecklistRoundTrip(t: Frame, u: string, tasks: seq<string>, status: seq<int>)
    requires WellFormed(t)
    ensures var o := Commit(ChecklistWrite(AsRead(t), u, tasks, status));
      && (o.Failed? <==> |t.rows| == 0 || "username" !in t.columns)
      && (!o.Failed? ==> o.Written? || o.Wiped?)
      && (o.Written? ==>
           var r := GetChecklist(AsRead(o.table), u);
           r.1 == status && (r.0 == tasks <==> tasks != [""] && NoSep(tasks, ';')))
  {
    var f := AsRead(t);
    ChecklistKeys(u, tasks, status);
    var added, ups := ChecklistRow(u, tasks, status), ChecklistUpdates(tasks, status);
    if "username" in f.columns {
      assert NamesUser(added, u) by { assert added[0] == Assign("username", Text(u)); }
      UpsertReadBack(f, u, added, ups, 1, 0);
      UpsertReadBack(f, u, added, ups, 2, 1);
      ListRoundTrip(tasks, ';');
      StatusRoundTrip(status);
    }
  }

  /** `set_orcamento` fails exactly on a sheet without data or without a
      `username` column; when it stores its table, `get_orcamento` yields the
      budget written, or the `0.0` default when that budget is false (zero or
      empty). */
  lemma BudgetRoundTrip(t: Frame, u: string, budget: Cell)
    requires WellFormed(t)
    ensures var o := Commit(OrcamentoWrite(AsRead(t), u, budget));
      && (o.Failed? <==> |t.rows| == 0 || "username" !in t.columns)
      && (!o.Failed? ==> o.Written? || o.Wiped?)
      && (o.Written? ==>
           GetOrcamento(AsRead(o.table), u) == if Truthy(budget) then Some(budget) else None)
  {
    var f := AsRead(t);
    var added, ups := [Assign("username", Text(u)), Assign("orcamento", budget)], [Assign("orcamento", budget)];
    assert Keys(added) == ["username", "orcamento"];
    assert Keys(ups) == ["orcamento"];
    if "username" in f.columns {
      assert NamesUser(added, u) by { assert added[0] == Assign("username", Text(u)); }
      UpsertReadBack(f, u, added, ups, 1, 0);
    }
  }

  /** When `set_gastos` (or a sibling) stores its table, the lookup of
      `get_gastos` yields the encoded text written, or the empty default when
      that text is empty. */
  lemma LedgerRoundTrip(t: Frame, u: string, l: Ledger, encoded: string)
    requires WellFormed(t)
    ensures var o := Commit(LedgerWrite(AsRead(t), u, l, encoded));
      && (o.Failed? <==> |t.rows| == 0 || "username" !in t.columns)
      && (!o.Failed? ==> o.Written? || o.Wiped?)
      && (o.Written? ==>
           GetLedger(AsRead(o.table), u, l) == if encoded != "" then Some(encoded) else None)
  {
    var f := AsRead(t);
    var col := LedgerColumn(l);
    var added, ups := [Assign("username", Text(u)), Assign(col, Text(encoded))], [Assign(col, Text(encoded))];
    assert Keys(added) == ["username", col];
    assert Keys(ups) == [col];
    if "username" in f.columns {
      assert NamesUser(added, u) by { assert added[0] == Assign("username", Text(u)); }
      UpsertReadBack(f, u, added, ups, 1, 0);
    }
  }

  /** When `set_evento_atual` stores its table, `get_evento_atual` yields
      exactly the three fields written, each `""` when the data did not hold
      it. */
  lemma EventRoundTrip(t: Frame, u: string, data: map<string, string>)
    requires WellFormed(t)
    ensures var o := Commit(EventoWrite(AsRead(t), u, data));
      && (o.Failed? <==> !IsEmpty(t) && "username" !in t.columns)
      && (!o.Failed? ==> o.Written? || o.Wiped?)
      && (o.Written? ==>
           GetEventoAtual(AsRead(o.table), u) ==
             map["nome_bebe" := DataGet(data, "nome_bebe"), "sexo_bebe" := DataGet(data, "sexo_bebe"),
                 "data_cha" := DataGet(data, "data_cha")])
  {
    var f := AsRead(t);
    EventKeysDistinct(u, data);
    var g0 := if IsEmpty(f) then Frame(EventColumns, []) else f;
    var added, ups := EventRow(u, data), EventUpdates(data);
    if "username" in g0.columns {
      assert NamesUser(added, u) by { assert added[0] == Assign("username", Text(u)); }
      EventReadBack(g0, u, data);
    }
  }

  lemma EventReadBack(g0: Frame, u: string, data: map<string, string>)
    requires WellFormed(g0) && "username" in g0.columns && Distinct(Keys(EventRow(u, data)))
    ensures
      GetEventoAtual(AsRead(Upsert(g0, u, EventRow(u, data), EventUpdates(data))), u) ==
        map["nome_bebe" := DataGet(data, "nome_bebe"), "sexo_bebe" := DataGet(data, "sexo_bebe"),
            "data_cha" := DataGet(data, "data_cha")]
  {
    EventKeysDistinct(u, data);
    var added, ups := EventRow(u, data), EventUpdates(data);
    assert NamesUser(added, u) by { assert added[0] == Assign("username", Text(u)); }
    assert added[1] == ups[0];
    UpsertReadBack(g0, u, added, ups, 1, 0);
    UpsertReadBack(g0, u, added, ups, 2, 1);
    UpsertReadBack(g0, u, added, ups, 3, 2);
    var g := Upsert(g0, u, added, ups);
    assert AsRead(g) == g;
    var r := g.rows[FirstMatch(g, u).value];
    assert "username" in g.columns;
    var e := GetEventoAtual(g, u);
    var m := map["nome_bebe" := DataGet(data, "nome_bebe"), "sexo_bebe" := DataGet(data, "sexo_bebe"), "data_cha" := DataGet(data, "data_cha")];
    assert e != map[];
    assert e.Keys == m.Keys;
    assert e["nome_bebe"] == RowGet(r, "nome_bebe") == m["nome_bebe"];
    assert e["sexo_bebe"] == RowGet(r, "sexo_bebe") == m["sexo_bebe"];
    assert e["data_cha"] == RowGet(r, "data_cha") == m["data_cha"];
  }

  /** `set_evento_atual` for a user without a row, when it stores its table,
      creates a row whose email, name and password are empty: a new account
      with no credentials. */
  lemma EventCreatesBlankAccount(t: Frame, u: string, data: map<string, string>)
    requires WellFormed(t)
    requires FirstMatch(AsRead(t), u).None?
    ensures var o := Commit(EventoWrite(AsRead(t), u, data));
      o.Written? ==>
        var g := o.table;
        && FirstMatch(g, u).Some?
        && (forall c :: c in IdentityColumns ==> c in g.columns)
        && (forall c :: c in BlankCredentials ==> c in g.rows[FirstMatch(g, u).value] && g.rows[FirstMatch(g, u).value][c] == Text(""))
  {
    var f := AsRead(t);
    var o := EventoWrite(f, u, data);
    if Commit(o).Written? {
      EventKeysDistinct(u, data);
      var g0 := if IsEmpty(f) then Frame(EventColumns, []) else f;
      assert "username" in g0.columns && o.table == Upsert(g0, u, EventRow(u, data), EventUpdates(data));
      assert FirstMatch(g0, u).None?;
      EventNewAccount(g0, u, data);
    }
  }

  /** The upsert of `set_evento_atual` for a user without a row appends the
      blank account. */
  lemma EventNewAccount(g0: Frame, u: string, data: map<string, string>)
    requires WellFormed(g0) && "username" in g0.columns && FirstMatch(g0, u).None?
    requires Distinct(Keys(EventRow(u, data)))
    ensures var g := Upsert(g0, u, EventRow(u, data), EventUpdates(data));
      && FirstMatch(g, u).Some?
      && (forall c :: c in IdentityColumns ==> c in g.columns)
      && (forall c :: c in BlankCredentials ==> c in g.rows[FirstMatch(g, u).value] && g.rows[FirstMatch(g, u).value][c] == Text(""))
  {
    assert Upsert(g0, u, EventRow(u, data), EventUpdates(data)) == AppendRow(g0, EventRow(u, data));
    EventNewRow(g0, u, data);
    EventNewRowBlank(g0, u, data);
  }

  /** The row `set_evento_atual` appends for a new user is the one found for
      them afterwards, and it brings every identity column. */
  lemma EventNewRow(g0: Frame, u: string, data: map<string, string>)
    requires WellFormed(g0) && FirstMatch(g0, u).None?
    requires Distinct(Keys(EventRow(u, data)))
    ensures var g := AppendRow(g0, EventRow(u, data));
      && FirstMatch(g, u) == Some(|g0.rows|)
      && (forall c :: c in IdentityColumns ==> c in g.columns)
  {
    EventKeysDistinct(u, data);
    var added := EventRow(u, data);
    assert NamesUser(added, u) by { assert added[0] == Assign("username", Text(u)); }
    AppendRowFinds(g0, u, added);
    forall c | c in IdentityColumns ensures c in AppendRow(g0, added).columns {
      assert c in Keys(added);
    }
  }

  /** The identity cells other than `username` of that row are empty. */
  lemma EventNewRowBlank(g0: Frame, u: string, data: map<string, string>)
    requires WellFormed(g0) && Distinct(Keys(EventRow(u, data)))
    ensures var r := AppendRow(g0, EventRow(u, data)).rows[|g0.rows|];
      forall c :: c in BlankCredentials ==> c in r && r[c] == Text("")
  {
    var added := EventRow(u, data);
    var r := AppendRow(g0, added).rows[|g0.rows|];
    forall c | c in BlankCredentials ensures c in r && r[c] == Text("") {
      assert Assign(c, Text("")) in added;
      var k :| 0 <= k < |added| && added[k] == Assign(c, Text(""));
    }
  }

  /** The identity cells a new event row leaves empty. */
  const BlankCredentials: seq<string> := ["email", "name", "password"]

  // ---------------------------------------------------------------------------
  // All writes together
  // ---------------------------------------------------------------------------

  /** One call of a write operation of the store, with its arguments. */
  datatype Op =
    | SetEvento(data: map<string, string>)
    | SetGuests(guests: seq<string>)
    | SetTasks(tasks: seq<string>, status: seq<int>)
    | SetBudget(budget: Cell)
    | SetEncoded(ledger: Ledger, encoded: string)
    | ResetAll(textColumns: set<string>)

  /** What the operation writes for user `u`, given the table it read. */
  function Perform(f: Frame, u: string, op: Op): (o: Outcome)
    requires WellFormed(f)
    ensures o.Written? ==> WellFormed(o.table)
  {
    match op
    case SetEvento(data) => EventoWrite(f, u, data)
    case SetGuests(guests) => ConvidadosWrite(f, u, guests)
    case SetTasks(tasks, status) => ChecklistWrite(f, u, tasks, status)
    case SetBudget(budget) => OrcamentoWrite(f, u, budget)
    case SetEncoded(l, encoded) => LedgerWrite(f, u, l, encoded)
    case ResetAll(textColumns) => ResetWrite(f, u, textColumns)
  }

  /** The upsert behind every setter: base table, new-row literal and the
      assignments on an existing row. */
  datatype Plan = Plan(base: Frame, added: seq<Assign>, ups: seq<Assign>)

  /** `p` is an upsert for `u` whose result is what `o` writes: the base is
      the table read (or a fresh header over it when it is empty), the
      literal names the user, and no assignment touches an identity column. */
  ghost predicate PlanFits(f: Frame, u: string, p: Plan, o: Outcome)
  {
    && WellFormed(p.base) && Distinct(Keys(p.added)) && Distinct(Keys(p.ups))
    && NamesUser(p.added, u) && "username" !in Keys(p.ups)
    && (forall c :: c in Keys(p.ups) ==> c !in IdentityColumns)
    && (p.base == f || (IsEmpty(f) && p.base.rows == []))
    && (!IsEmpty(f) ==> p.base == f)
    && (if "username" in p.base.columns then o == Written(Upsert(p.base, u, p.added, p.ups)) else o.Failed?)
  }

  function EventPlan(f: Frame, u: string, data: map<string, string>): (p: Plan)
    requires WellFormed(f)
    ensures PlanFits(f, u, p, EventoWrite(f, u, data))
  {
    EventKeysDistinct(u, data);
    var g := if IsEmpty(f) then Frame(EventColumns, []) else f;
    var p := Plan(g, EventRow(u, data), EventUpdates(data));
    assert NamesUser(p.added, u) by { assert p.added[0] == Assign("username", Text(u)); }
    assert Keys(p.ups) == ["nome_bebe", "sexo_bebe", "data_cha"];
    assert forall c :: c in Keys(p.ups) ==> c !in IdentityColumns;
    assert EventoWrite(f, u, data) == if "username" in g.columns then Written(Upsert(g, u, p.added, p.ups)) else Failed;
    p
  }

  function GuestPlan(f: Frame, u: string, guests: seq<string>): (p: Plan)
    requires WellFormed(f)
    ensures PlanFits(f, u, p, ConvidadosWrite(f, u, guests))
  {
    var g := if IsEmpty(f) then Frame(GuestColumns, []) else f;
    var p := Plan(g, GuestRow(u, guests), GuestUpdates(guests));
    assert Keys(p.added) == GuestColumns && Keys(p.ups) == ["convidados"];
    assert Distinct(GuestColumns) by { assert GuestColumns[0] != GuestColumns[1]; }
    assert Distinct(Keys(p.ups));
    assert NamesUser(p.added, u) by { assert p.added[0] == Assign("username", Text(u)); }
    assert forall c :: c in Keys(p.ups) ==> c !in IdentityColumns;
    assert ConvidadosWrite(f, u, guests) == if "username" in g.columns then Written(Upsert(g, u, p.added, p.ups)) else Failed;
    p
  }

  function TasksPlan(f: Frame, u: string, tasks: seq<string>, status: seq<int>): (p: Plan)
    requires WellFormed(f)
    ensures PlanFits(f, u, p, ChecklistWrite(f, u, tasks, status))
  {
    ChecklistKeys(u, tasks, status);
    var p := Plan(f, ChecklistRow(u, tasks, status), ChecklistUpdates(tasks, status));
    assert p.added[0] == Assign("username", Text(u));
    p
  }

  function BudgetPlan(f: Frame, u: string, budget: Cell): (p: Plan)
    requires WellFormed(f)
    ensures PlanFits(f, u, p, OrcamentoWrite(f, u, budget))
  {
    var p := Plan(f, [Assign("username", Text(u)), Assign("orcamento", budget)], [Assign("orcamento", budget)]);
    assert Keys(p.added) == ["username", "orcamento"] && Keys(p.ups) == ["orcamento"];
    assert p.added[0] == Assign("username", Text(u));
    p
  }

  function LedgerPlan(f: Frame, u: string, l: Ledger, encoded: string): (p: Plan)
    requires WellFormed(f)
    ensures PlanFits(f, u, p, LedgerWrite(f, u, l, encoded))
  {
    var col := LedgerColumn(l);
    var p := Plan(f, [Assign("username", Text(u)), Assign(col, Text(encoded))], [Assign(col, Text(encoded))]);
    assert Keys(p.added) == ["username", col] && Keys(p.ups) == [col];
    assert p.added[0] == Assign("username", Text(u));
    p
  }

  /** The upsert a setter performs, for every operation but the reset. */
  function PlanOf(f: Frame, u: string, op: Op): (p: Plan)
    requires WellFormed(f) && !op.ResetAll?
    ensures PlanFits(f, u, p, Perform(f, u, op))
  {
    match op
    case SetEvento(data) => EventPlan(f, u, data)
    case SetGuests(guests) => GuestPlan(f, u, guests)
    case SetTasks(tasks, status) => TasksPlan(f, u, tasks, status)
    case SetBudget(budget) => BudgetPlan(f, u, budget)
    case SetEncoded(l, encoded) => LedgerPlan(f, u, l, encoded)
  }

  /** A full reset leaves every username cell, so every search, as it was. */
  lemma ResetKeepsUsernames(f: Frame, u: string, textColumns: set<string>)
    requires WellFormed(f)
    ensures var o := ResetWrite(f, u, textColumns);
      o.Written? ==>
        && |o.table.rows| == |f.rows| && o.table.columns == f.columns
        && (forall j :: 0 <= j < |f.rows| && j != FirstMatch(f, u).value ==> o.table.rows[j] == f.rows[j])
        && (forall j, c :: 0 <= j < |f.rows| && c in f.rows[j] && c in IdentityColumns ==>
              c in o.table.rows[j] && o.table.rows[j][c] == f.rows[j][c])
        && (forall v :: FirstMatch(o.table, v) == FirstMatch(f, v))
  {
    var o := ResetWrite(f, u, textColumns);
    if o.Written? {
      var g := o.table;
      forall v ensures FirstMatch(g, v) == FirstMatch(f, v) {
        forall j | 0 <= j < |f.rows| ensures Matches(f.rows[j], v) <==> Matches(g.rows[j], v) {
          assert "username" in IdentityColumns;
        }
        FirstMatchSameUsers(f, g, v);
      }
    }
  }

  /** A reset of a sheet without NaN blanks cells with `""` or `0`, so the
      table it builds is always stored. */
  lemma ResetStored(t: Frame, u: string, textColumns: set<string>)
    requires WellFormed(t) && NanFree(t)
    ensures Commit(ResetWrite(AsRead(t), u, textColumns)) == ResetWrite(AsRead(t), u, textColumns)
  {
    var f := AsRead(t);
    var o := ResetWrite(f, u, textColumns);
    if o.Written? {
      var i := FirstMatch(f, u).value;
      assert o.table.rows[i] == ClearedRow(f.rows[i], textColumns);
      forall j, c | 0 <= j < |o.table.rows| && c in o.table.rows[j] ensures o.table.rows[j][c] != Missing {
        if j != i {
          assert o.table.rows[j] == f.rows[j];
        }
      }
    }
  }

  /** On a sheet without NaN, a write other than the reset clears the sheet
      exactly when the upsert it builds would hold a NaN cell (`UpsertNoNaN`
      fails): a column added while other rows exist, a new row that does not
      name every column, or a NaN value. */
  lemma WriteWipesExactly(t: Frame, u: string, op: Op)
    requires WellFormed(t) && NanFree(t) && !op.ResetAll?
    ensures var f := AsRead(t); var p := PlanOf(f, u, op);
      Commit(Perform(f, u, op)).Wiped? <==>
        "username" in p.base.columns && !UpsertNoNaN(p.base, u, p.added, p.ups)
  {
    var f := AsRead(t);
    var p := PlanOf(f, u, op);
    assert NanFree(p.base);
    if "username" in p.base.columns {
      UpsertNanFree(p.base, u, p.added, p.ups);
    }
  }

  /** In particular the first budget saved on a sheet of two or more rows
      without an `orcamento` column, by a user who has a row, clears the
      sheet: every other row would get a NaN budget. */
  lemma FirstBudgetWipes(t: Frame, u: string, budget: Cell)
    requires WellFormed(t) && NanFree(t) && |t.rows| >= 2
    requires "username" in t.columns && "orcamento" !in t.columns && FirstMatch(t, u).Some?
    ensures Commit(OrcamentoWrite(AsRead(t), u, budget)) == Wiped
  {
    var p := BudgetPlan(t, u, budget);
    assert p.ups[0].col == "orcamento";
    UpsertNanFree(t, u, p.added, p.ups);
  }

  /** Two users, "v" first, with their accounts and nothing else. */
  const TwoUsers: Frame :=
    Frame(["username", "email", "name", "password"],
          [map["username" := Text("v"), "email" := Text("v@x"), "name" := Text("V"), "password" := Text("hv")],
           map["username" := Text("u"), "email" := Text("u@x"), "name" := Text("U"), "password" := Text("hu")]])

  lemma TwoUsersFacts()
    ensures WellFormed(TwoUsers) && NanFree(TwoUsers) && AsRead(TwoUsers) == TwoUsers
    ensures TwoUsers.columns == IdentityColumns && HasColumns(TwoUsers, IdentityColumns)
    ensures FirstMatch(TwoUsers, "u") == Some(1) && FirstMatch(TwoUsers, "v") == Some(0)
  {
    var f := TwoUsers;
    assert Distinct(f.columns);
    assert Matches(f.rows[0], "v") && Matches(f.rows[1], "u") && !Matches(f.rows[0], "u");
  }

  /** A concrete case: when "u" saves a budget of 100, both accounts are
      gone, so neither user can log in any more. */
  lemma BudgetWipesAccounts()
    ensures WellFormed(TwoUsers) && |FetchAllUsers(TwoUsers).rows| == 2
    ensures var o := Commit(OrcamentoWrite(AsRead(TwoUsers), "u", Text("100")));
      o == Wiped && After(TwoUsers, o) == Frame([], []) && FetchAllUsers(AsRead(Frame([], []))).rows == []
  {
    TwoUsersFacts();
    FirstBudgetWipes(TwoUsers, "u", Text("100"));
  }

  /** No write stores a second row for a username. */
  lemma WritesKeepUniqueUsers(t: Frame, u: string, op: Op)
    requires WellFormed(t) && UniqueUsers(t)
    ensures var o := Commit(Perform(AsRead(t), u, op)); o.Written? ==> UniqueUsers(o.table)
  {
    var f := AsRead(t);
    if op.ResetAll? {
      var o := ResetWrite(f, u, op.textColumns);
      ResetKeepsUsernames(f, u, op.textColumns);
      if o.Written? {
        forall j, k | 0 <= j < k < |o.table.rows| ensures !SameUser(o.table.rows[j], o.table.rows[k]) {
          assert "username" in IdentityColumns;
          assert !SameUser(f.rows[j], f.rows[k]);
        }
      }
    } else {
      var p := PlanOf(f, u, op);
      if "username" in p.base.columns {
        UpsertKeepsUniqueUsers(p.base, u, p.added, p.ups);
      }
    }
  }

  /** The table a write for `u` builds keeps the record of every other user
      `v`: the same row, every cell it had, NaN in any column added. */
  lemma BuiltTablesKeepRecords(t: Frame, u: string, v: string, op: Op)
    requires WellFormed(t) && u != v
    ensures var o := Perform(AsRead(t), u, op); o.Written? ==> SameRecord(AsRead(t), o.table, v)
  {
    var f := AsRead(t);
    if op.ResetAll? {
      ResetKeepsUsernames(f, u, op.textColumns);
      var o := ResetWrite(f, u, op.textColumns);
      if o.Written? && FirstMatch(f, v).Some? {
        var i, j := FirstMatch(f, u).value, FirstMatch(f, v).value;
        assert j != i by { assert f.rows[j]["username"] == Text(v) != Text(u) == f.rows[i]["username"]; }
      }
    } else {
      var p := PlanOf(f, u, op);
      if "username" in p.base.columns {
        UpsertIsolation(p.base, u, p.added, p.ups, v);
        if IsEmpty(f) {
          assert FirstMatch(f, v).None? by {
            forall j | 0 <= j < |f.rows| ensures !Matches(f.rows[j], v) {
              assert "username" !in f.columns;
            }
          }
        }
      }
    }
  }

  /** A write for `u` whose table is stored leaves the record of every other
      user `v` exactly as it was: the search for `v` finds the same row, and
      that row is unchanged (a stored table has no NaN cell, so no column was
      added to it). */
  lemma WritesIsolateUsers(t: Frame, u: string, v: string, op: Op)
    requires WellFormed(t) && NanFree(t) && u != v
    ensures var f, o := AsRead(t), Commit(Perform(AsRead(t), u, op));
      o.Written? ==>
        && FirstMatch(o.table, v) == FirstMatch(f, v)
        && (FirstMatch(f, v).Some? ==> o.table.rows[FirstMatch(f, v).value] == f.rows[FirstMatch(f, v).value])
  {
    var f := AsRead(t);
    var o := Perform(f, u, op);
    if Commit(o).Written? {
      BuiltTablesKeepRecords(t, u, v, op);
      SameRecordExact(f, o.table, v);
    }
  }

  /** The reads of the store other than the checklist return the same for
      `v` on both tables. */
  ghost predicate SameReads(f: Frame, g: Frame, v: string)
    requires WellFormed(f) && WellFormed(g)
  {
    && GetConvidados(g, v) == GetConvidados(f, v)
    && GetOrcamento(g, v) == GetOrcamento(f, v)
    && (forall l :: GetLedger(g, v, l) == GetLedger(f, v, l))
    && GetEventoAtual(g, v) == GetEventoAtual(f, v)
  }

  /** A record found at the same row, and the same there, reads the same. */
  lemma ExactRecordReads(f: Frame, g: Frame, v: string)
    requires WellFormed(f) && WellFormed(g) && FirstMatch(g, v) == FirstMatch(f, v)
    requires FirstMatch(f, v).Some? ==> g.rows[FirstMatch(f, v).value] == f.rows[FirstMatch(f, v).value]
    ensures SameReads(f, g, v) && GetChecklist(g, v) == GetChecklist(f, v)
  {
    if FirstMatch(f, v).Some? {
      var j := FirstMatch(f, v).value;
      assert forall c :: c in g.columns <==> c in f.columns by {
        assert forall c :: c in g.columns <==> c in g.rows[j];
        assert forall c :: c in f.columns <==> c in f.rows[j];
      }
      forall l ensures GetLedger(g, v, l) == GetLedger(f, v, l) {
        assert LedgerColumn(l) in g.columns <==> LedgerColumn(l) in f.columns;
      }
    }
  }

  /** So every read of another user returns what it returned before the
      write, on every sheet the write leaves stored. */
  lemma WritesKeepOthersReads(t: Frame, u: string, v: string, op: Op)
    requires WellFormed(t) && NanFree(t) && u != v
    ensures var f, o := AsRead(t), Commit(Perform(AsRead(t), u, op));
      o.Written? ==> SameReads(f, AsRead(o.table), v) && GetChecklist(AsRead(o.table), v) == GetChecklist(f, v)
  {
    var f := AsRead(t);
    var o := Commit(Perform(f, u, op));
    if o.Written? {
      WritesIsolateUsers(t, u, v, op);
      BuiltKeepsAccountCells(t, u, op);
      assert AsRead(o.table) == o.table;
      ExactRecordReads(f, o.table, v);
    }
  }

  /** What every table a write builds keeps of the table `f` read: it has
      rows, its username cells are never NaN and, when `f` has the identity
      columns, so does it, with the rows read first and every identity cell
      of theirs. */
  ghost predicate KeepsAccountCells(f: Frame, g: Frame)
    requires WellFormed(f) && WellFormed(g)
  {
    && 0 < |g.rows|
    && (forall j :: 0 <= j < |g.rows| ==> "username" in g.rows[j] && g.rows[j]["username"] != Missing)
    && (HasColumns(f, IdentityColumns) ==>
          && |f.rows| <= |g.rows| && HasColumns(g, IdentityColumns)
          && forall j, c :: 0 <= j < |f.rows| && c in IdentityColumns ==>
               c in g.rows[j] && g.rows[j][c] == f.rows[j][c])
  }

  lemma ResetKeepsAccountCells(t: Frame, u: string, textColumns: set<string>)
    requires WellFormed(t) && NanFree(t)
    ensures var f, o := AsRead(t), ResetWrite(AsRead(t), u, textColumns);
      o.Written? ==> KeepsAccountCells(f, o.table)
  {
    var f := AsRead(t);
    var o := ResetWrite(f, u, textColumns);
    if o.Written? {
      ResetKeepsUsernames(f, u, textColumns);
      assert "username" in IdentityColumns && "username" in f.columns;
      assert |o.table.rows| > 0 by { assert FirstMatch(f, u).Some?; }
      forall j | 0 <= j < |o.table.rows| ensures "username" in o.table.rows[j] && o.table.rows[j]["username"] != Missing {
        assert "username" in f.rows[j];
      }
    }
  }

  lemma UpsertKeepsAccountCells(t: Frame, u: string, op: Op)
    requires WellFormed(t) && NanFree(t) && !op.ResetAll?
    ensures var f, o := AsRead(t), Perform(AsRead(t), u, op);
      o.Written? ==> KeepsAccountCells(f, o.table)
  {
    var f := AsRead(t);
    var o := Perform(f, u, op);
    if o.Written? {
      var p := PlanOf(f, u, op);
      assert o.table == Upsert(p.base, u, p.added, p.ups);
      PlanKeepsAccountCells(t, u, p);
    }
  }

  lemma PlanKeepsAccountCells(t: Frame, u: string, p: Plan)
    requires WellFormed(t) && NanFree(t) && WellFormed(p.base) && Distinct(Keys(p.added))
    requires PlanFits(AsRead(t), u, p, Written(Upsert(p.base, u, p.added, p.ups)))
    ensures KeepsAccountCells(AsRead(t), Upsert(p.base, u, p.added, p.ups))
  {
    var f := AsRead(t);
    var g := Upsert(p.base, u, p.added, p.ups);
    assert NanFree(p.base) && "username" in p.base.columns;
    UpsertUsernamesKnown(p.base, u, p.added, p.ups);
    if HasColumns(f, IdentityColumns) {
      assert "username" in f.columns && p.base == f;
      forall j, c | 0 <= j < |f.rows| && c in IdentityColumns ensures c in g.rows[j] && g.rows[j][c] == f.rows[j][c] {
        UpsertKeepsCell(f, u, p.added, p.ups, j, c);
      }
      forall c | c in IdentityColumns ensures c in g.columns {
        assert c in f.rows[0] && c in g.rows[0];
      }
    }
  }

  lemma BuiltKeepsAccountCells(t: Frame, u: string, op: Op)
    requires WellFormed(t) && NanFree(t)
    ensures var f, o := AsRead(t), Perform(AsRead(t), u, op);
      o.Written? ==> KeepsAccountCells(f, o.table)
  {
    if op.ResetAll? {
      ResetKeepsAccountCells(t, u, op.textColumns);
    } else {
      UpsertKeepsAccountCells(t, u, op);
    }
  }

  /** Two tables that agree on the identity cells of the rows of the first
      give users tables of which the first is a prefix of the second. */
  lemma AccountsPrefix(f: Frame, g: Frame)
    requires WellFormed(f) && WellFormed(g) && |f.rows| <= |g.rows|
    requires HasColumns(f, IdentityColumns) && HasColumns(g, IdentityColumns)
    requires forall j, c :: 0 <= j < |f.rows| && c in IdentityColumns ==> c in g.rows[j] && g.rows[j][c] == f.rows[j][c]
    ensures var before, after := FetchAllUsers(f), FetchAllUsers(g);
      |before.rows| <= |after.rows| && after.rows[..|before.rows|] == before.rows
  {
    var before, after := FetchAllUsers(f), FetchAllUsers(g);
    forall j | 0 <= j < |before.rows| ensures after.rows[j] == before.rows[j] {
      assert forall c :: c in after.rows[j] <==> c in before.rows[j];
    }
  }

  /** No stored write alters an existing account: when the table has the four
      identity columns, the users table read afterwards starts with the users
      table read before. */
  lemma WritesKeepAccounts(t: Frame, u: string, op: Op)
    requires WellFormed(t) && NanFree(t) && HasColumns(AsRead(t), IdentityColumns)
    ensures var o := Commit(Perform(AsRead(t), u, op));
      o.Written? ==>
        var before, after := FetchAllUsers(AsRead(t)), FetchAllUsers(AsRead(o.table));
        |before.rows| <= |after.rows| && after.rows[..|before.rows|] == before.rows
  {
    var f := AsRead(t);
    var o := Perform(f, u, op);
    if Commit(o).Written? {
      BuiltKeepsAccountCells(t, u, op);
      assert AsRead(o.table) == o.table;
      AccountsPrefix(f, o.table);
    }
  }

  // ---------------------------------------------------------------------------
  // Writes with `fillna("")`
  // ---------------------------------------------------------------------------

  /** A record found at the same row, which keeps every cell it had and holds
      `""` in every cell it gained, reads the same, except for a checklist
      half of which was already there. */
  lemma FilledRecordReads(f: Frame, g: Frame, v: string)
    requires WellFormed(f) && WellFormed(g) && FirstMatch(g, v) == FirstMatch(f, v)
    requires FirstMatch(f, v).Some? ==>
      var j := FirstMatch(f, v).value;
      && (forall c :: c in f.rows[j] ==> c in g.rows[j] && g.rows[j][c] == f.rows[j][c])
      && (forall c :: c in g.rows[j] && c !in f.rows[j] ==> g.rows[j][c] == Text(""))
    ensures SameReads(f, g, v)
    ensures ("checklist_tarefas" in f.columns <==> "checklist_status" in f.columns) ==>
      GetChecklist(g, v) == GetChecklist(f, v)
  {
    if FirstMatch(f, v).Some? {
      var j := FirstMatch(f, v).value;
      var r, s := f.rows[j], g.rows[j];
      assert forall c :: c in g.columns <==> c in s;
      assert forall c :: c in f.columns <==> c in r;
      assert GetConvidados(g, v) == GetConvidados(f, v) by {
        if "convidados" in g.columns && "convidados" !in f.columns {
          assert s["convidados"] == Text("");
        }
      }
      assert GetOrcamento(g, v) == GetOrcamento(f, v) by {
        if "orcamento" in g.columns && "orcamento" !in f.columns {
          assert s["orcamento"] == Text("");
        }
      }
      forall l ensures GetLedger(g, v, l) == GetLedger(f, v, l) {
        var c := LedgerColumn(l);
        if c in g.columns && c !in f.columns {
          assert s[c] == Text("");
        }
      }
      var e, e' := GetEventoAtual(g, v), GetEventoAtual(f, v);
      forall k | k in e ensures e[k] == e'[k] {
        assert RowGet(s, k) == RowGet(r, k);
      }
      if "checklist_tarefas" in f.columns <==> "checklist_status" in f.columns {
        if "checklist_tarefas" in g.columns && "checklist_status" in g.columns && "checklist_tarefas" !in f.columns {
          assert s["checklist_tarefas"] == Text("") && s["checklist_status"] == Text("");
        }
      }
    }
  }

  /** With `fillna("")` before the update no write clears the sheet, and the
      record of every other user `v` keeps every cell it had and gains only
      `""` cells. */
  lemma FilledWritesKeepRecords(t: Frame, u: string, v: string, op: Op)
    requires WellFormed(t) && NanFree(t) && u != v
    ensures var f, o := AsRead(t), Commit(Filled(Perform(AsRead(t), u, op)));
      && !o.Wiped?
      && (o.Written? ==>
        && FirstMatch(o.table, v) == FirstMatch(f, v)
        && (FirstMatch(f, v).Some? ==>
              var j := FirstMatch(f, v).value;
              && (forall c :: c in f.rows[j] ==> c in o.table.rows[j] && o.table.rows[j][c] == f.rows[j][c])
              && (forall c :: c in o.table.rows[j] && c !in f.rows[j] ==> o.table.rows[j][c] == Text(""))))
  {
    var f := AsRead(t);
    var o := Perform(f, u, op);
    if o.Written? {
      var h := o.table;
      var g := FillNaN(h);
      BuiltTablesKeepRecords(t, u, v, op);
      BuiltKeepsAccountCells(t, u, op);
      FillNaNMatches(h, v);
      if FirstMatch(f, v).Some? {
        var j := FirstMatch(f, v).value;
        forall c | c in f.rows[j] ensures c in g.rows[j] && g.rows[j][c] == f.rows[j][c] {
          assert h.rows[j][c] == f.rows[j][c];
        }
        forall c | c in g.rows[j] && c !in f.rows[j] ensures g.rows[j][c] == Text("") {
          assert h.rows[j][c] == Missing;
        }
      }
    }
  }

  /** Hence, with `fillna("")`, every other user's guests, budget, encoded
      tables and event read as before, and so does their checklist unless the
      sheet held one checklist column without the other. */
  lemma FilledWritesIsolateUsers(t: Frame, u: string, v: string, op: Op)
    requires WellFormed(t) && NanFree(t) && u != v
    ensures var f, o := AsRead(t), Commit(Filled(Perform(AsRead(t), u, op)));
      o.Written? ==>
        && SameReads(f, AsRead(o.table), v)
        && (("checklist_tarefas" in f.columns <==> "checklist_status" in f.columns) ==>
              GetChecklist(AsRead(o.table), v) == GetChecklist(f, v))
  {
    var f := AsRead(t);
    var o := Commit(Filled(Perform(f, u, op)));
    if o.Written? {
      FilledWritesKeepRecords(t, u, v, op);
      BuiltKeepsAccountCells(t, u, op);
      assert AsRead(o.table) == o.table;
      FilledRecordReads(f, o.table, v);
    }
  }

  /** With `fillna("")` no write alters an existing account, and none clears
      the sheet. */
  lemma FilledWritesKeepAccounts(t: Frame, u: string, op: Op)
    requires WellFormed(t) && NanFree(t) && HasColumns(AsRead(t), IdentityColumns)
    ensures var o := Commit(Filled(Perform(AsRead(t), u, op)));
      && !o.Wiped?
      && (o.Written? ==>
        var before, after := FetchAllUsers(AsRead(t)), FetchAllUsers(AsRead(o.table));
        |before.rows| <= |after.rows| && after.rows[..|before.rows|] == before.rows)
  {
    var f := AsRead(t);
    var o := Perform(f, u, op);
    if o.Written? {
      BuiltKeepsAccountCells(t, u, op);
      var g := FillNaN(o.table);
      forall j, c | 0 <= j < |f.rows| && c in IdentityColumns ensures c in g.rows[j] && g.rows[j][c] == f.rows[j][c] {
        assert o.table.rows[j][c] == f.rows[j][c];
      }
      assert AsRead(g) == g;
      AccountsPrefix(f, g);
    }
  }

  // ---------------------------------------------------------------------------
  // Full reset
  // ---------------------------------------------------------------------------

  /** After a reset every read of the user returns its empty default: no
      guests, no checklist, the `0.0` budget, no encoded data, and event fields
      that are all false (so the event needs to be configured again). */
  lemma ResetClearsRecord(t: Frame, u: string, textColumns: set<string>)
    requires WellFormed(t)
    ensures var o := ResetWrite(AsRead(t), u, textColumns);
      o.Written? ==>
        var g := AsRead(o.table);
        && GetConvidados(g, u) == []
        && GetChecklist(g, u) == ([], [])
        && GetOrcamento(g, u).None?
        && (forall l :: GetLedger(g, u, l).None?)
        && GetEventoAtual(g, u) != map[]
        && (forall k :: k in GetEventoAtual(g, u) ==> !Truthy(GetEventoAtual(g, u)[k]))
  {
    var f := AsRead(t);
    var o := ResetWrite(f, u, textColumns);
    if o.Written? {
      var g := ResetRowBlank(f, u, textColumns);
      assert AsRead(o.table) == g;
      BlankRecordReads(g, u);
      BlankRecordEvent(g, u);
    }
  }

  /** The user's row is found and every cell of it outside the identity
      columns is false. */
  ghost predicate BlankRecord(g: Frame, u: string)
    requires WellFormed(g)
  {
    && "username" in g.columns && FirstMatch(g, u).Some?
    && forall c :: c in g.columns && c !in IdentityColumns ==>
         c in g.rows[FirstMatch(g, u).value] && !Truthy(g.rows[FirstMatch(g, u).value][c])
  }

  /** On a blank record the list, budget and encoded reads give their defaults. */
  lemma BlankRecordReads(g: Frame, u: string)
    requires WellFormed(g) && BlankRecord(g, u)
    ensures GetConvidados(g, u) == [] && GetChecklist(g, u) == ([], [])
    ensures GetOrcamento(g, u).None? && forall l :: GetLedger(g, u, l).None?
  {
    var r := g.rows[FirstMatch(g, u).value];
    assert GetConvidados(g, u) == [] by {
      if "convidados" in g.columns { assert !Truthy(r["convidados"]); }
    }
    assert GetChecklist(g, u) == ([], []) by {
      if "checklist_tarefas" in g.columns && "checklist_status" in g.columns {
        assert !Truthy(r["checklist_tarefas"]) && !Truthy(r["checklist_status"]);
      }
    }
    assert GetOrcamento(g, u).None? by {
      if "orcamento" in g.columns { assert !Truthy(r["orcamento"]); }
    }
    forall l ensures GetLedger(g, u, l).None? {
      if LedgerColumn(l) in g.columns { assert !Truthy(r[LedgerColumn(l)]); }
    }
  }

  /** On a blank record the event read is present and all its fields are false. */
  lemma BlankRecordEvent(g: Frame, u: string)
    requires WellFormed(g) && BlankRecord(g, u)
    ensures GetEventoAtual(g, u) != map[]
    ensures forall k :: k in GetEventoAtual(g, u) ==> !Truthy(GetEventoAtual(g, u)[k])
  {
    var r := g.rows[FirstMatch(g, u).value];
    var e := GetEventoAtual(g, u);
    forall k | k in e ensures !Truthy(e[k]) {
      assert e[k] == RowGet(r, k);
    }
  }

  /** The table a reset writes, with the user's row at the same place and
      every cell of it outside the identity columns false. */
  lemma ResetRowBlank(f: Frame, u: string, textColumns: set<string>) returns (g: Frame)
    requires WellFormed(f)
    requires ResetWrite(f, u, textColumns).Written?
    ensures g == ResetWrite(f, u, textColumns).table && WellFormed(g) && AsRead(g) == g
    ensures BlankRecord(g, u)
  {
    ResetKeepsUsernames(f, u, textColumns);
    g := ResetWrite(f, u, textColumns).table;
    var i := FirstMatch(f, u).value;
    assert g.rows[i] == ClearedRow(f.rows[i], textColumns);
  }

  /** A reset keeps every account as it was. */
  lemma ResetKeepsAccounts(t: Frame, u: string, textColumns: set<string>)
    requires WellFormed(t)
    ensures var o := ResetWrite(AsRead(t), u, textColumns);
      o.Written? ==> FetchAllUsers(o.table) == FetchAllUsers(AsRead(t))
  {
    var f := AsRead(t);
    var o := ResetWrite(f, u, textColumns);
    ResetKeepsUsernames(f, u, textColumns);
    if o.Written? {
      var before, after := FetchAllUsers(f), FetchAllUsers(o.table);
      forall j | 0 <= j < |before.rows| ensures after.rows[j] == before.rows[j] {
        assert forall c :: c in after.rows[j] <==> c in before.rows[j];
      }
    }
  }

  /** Resetting twice writes what resetting once wrote. */
  lemma ResetIdempotent(t: Frame, u: string, textColumns: set<string>)
    requires WellFormed(t)
    ensures var o := ResetWrite(AsRead(t), u, textColumns);
      o.Written? ==> ResetWrite(AsRead(o.table), u, textColumns) == o
  {
    var f := AsRead(t);
    var o := ResetWrite(f, u, textColumns);
    ResetKeepsUsernames(f, u, textColumns);
    if o.Written? {
      var i := FirstMatch(f, u).value;
      var r := o.table.rows[i];
      assert ClearedRow(r, textColumns) == r;
      assert o.table.rows[i := r] == o.table.rows;
    }
  }
}
