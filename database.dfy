/** The per-user record store of database.py. Every operation reads the whole
    sheet, finds the user's row by the `username` column, and (for writes)
    edits the table it read and writes the whole table back.

    Each write is given twice: as a function from the table read to what is
    written (`...Write`, an `Outcome`), and as the method on the sheet that
    performs it and is proved to agree with that function. Reads are functions
    of the table read. */
module Database {
  import opened Cells
  import opened Codec
  import opened Tables
  import opened Backend

  /** The columns that identify an account and survive a full reset. */
  const IdentityColumns: seq<string> := ["username", "email", "name", "password"]

  /** The header `set_evento_atual` gives a sheet without data. */
  const EventColumns: seq<string> := ["username", "nome_bebe", "sexo_bebe", "data_cha", "email", "name", "password"]

  /** The header `set_convidados` gives a sheet without data. */
  const GuestColumns: seq<string> := ["username", "convidados"]

  /** What a write operation did: raised (and returned False), returned True
      without writing, replaced the sheet with `table` (and returned True), or
      cleared the sheet and then raised (and returned False). */
  datatype Outcome = Failed | Unchanged | Written(table: Frame) | Wiped

  /** What writing the table an operation built comes to: a table holding
      NaN cannot be sent, so the clear happens and the update raises. */
  function Commit(o: Outcome): Outcome
  {
    if o.Written? && !NanFree(o.table) then Wiped else o
  }

  /** Writing the table `df` an operation built, which leaves the sheet
      holding `after`, realises the committed outcome. */
  lemma CommitWrite(t: Frame, o: Outcome, df: Frame, ok: bool, after: Frame)
    requires o == Written(df) && ok == NanFree(df)
    requires after == if ok then df else Frame([], [])
    ensures ok == Succeeded(Commit(o)) && after == After(t, Commit(o))
  {
  }

  /** `True` was returned. */
  predicate Succeeded(o: Outcome)
  {
    o.Written? || o.Unchanged?
  }

  /** The sheet's table after an operation that started from `t`. */
  function After(t: Frame, o: Outcome): Frame
  {
    match o
    case Written(g) => g
    case Wiped => Frame([], [])
    case _ => t
  }

  /** The writes as evidently intended: `df.fillna("")` before the update,
      so that the table sent never holds NaN. */
  function Filled(o: Outcome): (r: Outcome)
    ensures Commit(r) == r
    ensures r.Written? <==> o.Written?
  {
    if o.Written? then Written(FillNaN(o.table)) else o
  }

  predicate HasColumns(f: Frame, cols: seq<string>)
  {
    forall c :: c in cols ==> c in f.columns
  }

  // ---------------------------------------------------------------------------
  // Users: fetch_all_users, update_users
  // ---------------------------------------------------------------------------

  /** `fetch_all_users`: the four identity columns of every row; an empty
      four-column table when there is no `username` column or when selecting
      the four columns raises. */
  function FetchAllUsers(f: Frame): (users: Frame)
    requires WellFormed(f)
    ensures WellFormed(users) && users.columns == IdentityColumns
    ensures HasColumns(f, IdentityColumns) ==> |users.rows| == |f.rows|
    ensures !HasColumns(f, IdentityColumns) ==> users.rows == []
    ensures forall j, c :: 0 <= j < |users.rows| && c in IdentityColumns ==>
      c in f.rows[j] && c in users.rows[j] && users.rows[j][c] == f.rows[j][c]
  {
    if "username" !in f.columns then Frame(IdentityColumns, [])
    else if !HasColumns(f, IdentityColumns) then Frame(IdentityColumns, [])
    else Project(f, IdentityColumns)
  }

  /** `update_users`: the whole sheet becomes the given table; a table
      holding NaN leaves it empty instead. */
  method UpdateUsers(sheet: Sheet, users: Frame) returns (ok: bool)
    requires sheet.Valid() && WellFormed(users)
    modifies sheet
    ensures sheet.Valid() && ok == NanFree(users)
    ensures sheet.Table() == if ok then users else Frame([], [])
  {
    ok := sheet.Overwrite(users);
  }

  // ---------------------------------------------------------------------------
  // Event: get_evento_atual, set_evento_atual
  // ---------------------------------------------------------------------------

  /** `row.get(k, "")` on a row of the table. */
  function RowGet(r: Row, k: string): Cell
  {
    if k in r then r[k] else Text("")
  }

  /** `get_evento_atual`: `{}` when the user has no row (or the table has no
      `username` column); otherwise exactly the three event fields of the
      user's first row, each `""` when its column is absent. */
  function GetEventoAtual(f: Frame, u: string): (e: map<string, Cell>)
    requires WellFormed(f)
    ensures e == map[] <==> "username" !in f.columns || FirstMatch(f, u).None?
    ensures e != map[] ==> e.Keys == {"nome_bebe", "sexo_bebe", "data_cha"}
    ensures e != map[] ==> forall k :: k in e ==> e[k] == RowGet(f.rows[FirstMatch(f, u).value], k)
  {
    if "username" !in f.columns then map[]
    else
      match FirstMatch(f, u)
      case None => map[]
      case Some(i) =>
        var r := f.rows[i];
        var e := map["nome_bebe" := RowGet(r, "nome_bebe"), "sexo_bebe" := RowGet(r, "sexo_bebe"), "data_cha" := RowGet(r, "data_cha")];
        assert "nome_bebe" in e;
        e
  }

  /** `evento_data.get(k, "")`. */
  function DataGet(data: map<string, string>, k: string): Cell
  {
    Text(if k in data then data[k] else "")
  }

  /** The row `set_evento_atual` appends for a new user. */
  function EventRow(u: string, data: map<string, string>): seq<Assign>
  {
    [ Assign("username", Text(u)),
      Assign("nome_bebe", DataGet(data, "nome_bebe")),
      Assign("sexo_bebe", DataGet(data, "sexo_bebe")),
      Assign("data_cha", DataGet(data, "data_cha")),
      Assign("email", Text("")),
      Assign("name", Text("")),
      Assign("password", Text("")) ]
  }

  /** The cells `set_evento_atual` assigns on an existing user's row. */
  function EventUpdates(data: map<string, string>): seq<Assign>
  {
    [ Assign("nome_bebe", DataGet(data, "nome_bebe")),
      Assign("sexo_bebe", DataGet(data, "sexo_bebe")),
      Assign("data_cha", DataGet(data, "data_cha")) ]
  }

  lemma EventKeysDistinct(u: string, data: map<string, string>)
    ensures Distinct(Keys(EventRow(u, data))) && Distinct(Keys(EventUpdates(data)))
    ensures Distinct(EventColumns) && Keys(EventRow(u, data)) == EventColumns
    ensures "username" !in Keys(EventUpdates(data))
  {
    assert Keys(EventRow(u, data)) == EventColumns;
    assert Keys(EventUpdates(data)) == ["nome_bebe", "sexo_bebe", "data_cha"];
  }

  /** What `set_evento_atual` writes, given the table it read. */
  function EventoWrite(f: Frame, u: string, data: map<string, string>): (o: Outcome)
    requires WellFormed(f)
    ensures o.Written? ==> WellFormed(o.table)
  {
    EventKeysDistinct(u, data);
    var g := if IsEmpty(f) then Frame(EventColumns, []) else f;
    if "username" !in g.columns then Failed
    else Written(Upsert(g, u, EventRow(u, data), EventUpdates(data)))
  }

  /** The step every setter performs on the table it read: look up the
      user's row; append the row literal when there is none, otherwise run
      the `df.at[idx, col] = v` assignments on it. */
  method UpsertStep(df: Frame, u: string, added: seq<Assign>, ups: seq<Assign>) returns (g: Frame)
    requires WellFormed(df) && Distinct(Keys(added))
    ensures g == Upsert(df, u, added, ups)
  {
    var idx := FirstMatch(df, u);
    if idx.None? {
      g := AppendRow(df, added);
    } else {
      g := SetCells(df, idx.value, ups);
    }
  }

  /** `set_evento_atual`. */
  method SetEventoAtual(sheet: Sheet, u: string, data: map<string, string>) returns (ok: bool)
    requires sheet.Valid()
    modifies sheet
    ensures sheet.Valid()
    ensures var o := Commit(EventoWrite(AsRead(old(sheet.Table())), u, data));
      ok == Succeeded(o) && sheet.Table() == After(old(sheet.Table()), o)
  {
    EventKeysDistinct(u, data);
    var df := sheet.GetAllRecords();
    ghost var w := EventoWrite(df, u, data);
    if IsEmpty(df) {
      df := Frame(EventColumns, []);
    }
    if "username" !in df.columns {
      return false;
    }
    df := UpsertStep(df, u, EventRow(u, data), EventUpdates(data));
    ok := sheet.Overwrite(df);
    CommitWrite(old(sheet.Table()), w, df, ok, sheet.Table());
  }

  // ---------------------------------------------------------------------------
  // Delimited list cells
  // ---------------------------------------------------------------------------

  /** Reading a list cell: a false cell is the empty list; text is split on
      the delimiter; any other true cell (a number, NaN) has no `split` and
      raises, here `None`. */
  function DecodeTextCell(c: Cell, sep: char): (r: Option<seq<string>>)
    ensures !Truthy(c) ==> r == Some([])
    ensures c.Text? ==> r == Some(DecodeList(c.s, sep))
    ensures !c.Text? ==> (r.Some? <==> c == Int(0))
  {
    if !Truthy(c) then Some([])
    else
      match c
      case Text(s) => Some(Split(s, sep))
      case _ => None
  }

  /** Reading the checklist status cell: a false cell is the empty list;
      text is split on ';' and every piece goes through int(). */
  function DecodeStatusCell(c: Cell): (r: Option<seq<int>>)
    ensures !Truthy(c) ==> r == Some([])
    ensures c.Text? ==> r == DecodeStatuses(c.s)
    ensures !c.Text? ==> (r.Some? <==> c == Int(0))
  {
    if !Truthy(c) then Some([])
    else
      match c
      case Text(s) => ParseAll(Split(s, ';'))
      case _ => None
  }

  // ---------------------------------------------------------------------------
  // Guests: get_convidados, set_convidados
  // ---------------------------------------------------------------------------

  /** `get_convidados`: the user's guest cell split on ','; `[]` when there is
      no such row or column, when the cell is empty, or when reading raises. */
  function GetConvidados(f: Frame, u: string): (guests: seq<string>)
    requires WellFormed(f)
    ensures FirstMatch(f, u).None? || "convidados" !in f.columns ==> guests == []
    ensures FirstMatch(f, u).Some? && "convidados" in f.columns ==>
      var c := f.rows[FirstMatch(f, u).value]["convidados"];
      guests == if c.Text? then DecodeList(c.s, ',') else []
  {
    if "username" !in f.columns || "convidados" !in f.columns then []
    else
      match FirstMatch(f, u)
      case None => []
      case Some(i) =>
        match DecodeTextCell(f.rows[i]["convidados"], ',')
        case Some(l) => l
        case None => []
  }

  function GuestRow(u: string, guests: seq<string>): seq<Assign>
  {
    [Assign("username", Text(u)), Assign("convidados", Text(Join(guests, ',')))]
  }

  function GuestUpdates(guests: seq<string>): seq<Assign>
  {
    [Assign("convidados", Text(Join(guests, ',')))]
  }

  /** What `set_convidados` writes, given the table it read. */
  function ConvidadosWrite(f: Frame, u: string, guests: seq<string>): (o: Outcome)
    requires WellFormed(f)
    ensures o.Written? ==> WellFormed(o.table)
  {
    assert Keys(GuestRow(u, guests)) == GuestColumns;
    var g := if IsEmpty(f) then Frame(GuestColumns, []) else f;
    if "username" !in g.columns then Failed
    else Written(Upsert(g, u, GuestRow(u, guests), GuestUpdates(guests)))
  }

  /** `set_convidados`. */
  method SetConvidados(sheet: Sheet, u: string, guests: seq<string>) returns (ok: bool)
    requires sheet.Valid()
    modifies sheet
    ensures sheet.Valid()
    ensures var o := Commit(ConvidadosWrite(AsRead(old(sheet.Table())), u, guests));
      ok == Succeeded(o) && sheet.Table() == After(old(sheet.Table()), o)
  {
    assert Keys(GuestRow(u, guests)) == GuestColumns;
    var df := sheet.GetAllRecords();
    ghost var w := ConvidadosWrite(df, u, guests);
    if IsEmpty(df) {
      df := Frame(GuestColumns, []);
    }
    if "username" !in df.columns {
      return false;
    }
    df := UpsertStep(df, u, GuestRow(u, guests), GuestUpdates(guests));
    ok := sheet.Overwrite(df);
    CommitWrite(old(sheet.Table()), w, df, ok, sheet.Table());
  }

  // ---------------------------------------------------------------------------
  // Checklist: get_checklist, set_checklist
  // ---------------------------------------------------------------------------

  /** `get_checklist`: the `checklist_tarefas` cell split on ';' and the status cell split on
      ';' and parsed; both lists empty when the row or a column is missing or
      when decoding either cell raises. */
  function GetChecklist(f: Frame, u: string): (r: (seq<string>, seq<int>))
    requires WellFormed(f)
    ensures FirstMatch(f, u).None? || "checklist_tarefas" !in f.columns || "checklist_status" !in f.columns ==> r == ([], [])
    ensures FirstMatch(f, u).Some? && "checklist_tarefas" in f.columns && "checklist_status" in f.columns ==>
      var row := f.rows[FirstMatch(f, u).value];
      var ts, ss := DecodeTextCell(row["checklist_tarefas"], ';'), DecodeStatusCell(row["checklist_status"]);
      r == if ts.Some? && ss.Some? then (ts.value, ss.value) else ([], [])
  {
    if "username" !in f.columns || "checklist_tarefas" !in f.columns || "checklist_status" !in f.columns then ([], [])
    else
      match FirstMatch(f, u)
      case None => ([], [])
      case Some(i) =>
        match (DecodeTextCell(f.rows[i]["checklist_tarefas"], ';'), DecodeStatusCell(f.rows[i]["checklist_status"]))
        case (Some(ts), Some(ss)) => (ts, ss)
        case _ => ([], [])
  }

  function ChecklistRow(u: string, tasks: seq<string>, status: seq<int>): seq<Assign>
  {
    [ Assign("username", Text(u)),
      Assign("checklist_tarefas", Text(Join(tasks, ';'))),
      Assign("checklist_status", Text(EncodeStatuses(status))) ]
  }

  function ChecklistUpdates(tasks: seq<string>, status: seq<int>): seq<Assign>
  {
    [ Assign("checklist_tarefas", Text(Join(tasks, ';'))),
      Assign("checklist_status", Text(EncodeStatuses(status))) ]
  }

  lemma ChecklistKeys(u: string, tasks: seq<string>, status: seq<int>)
    ensures Keys(ChecklistRow(u, tasks, status)) == ["username", "checklist_tarefas", "checklist_status"]
    ensures Keys(ChecklistUpdates(tasks, status)) == ["checklist_tarefas", "checklist_status"]
    ensures Distinct(Keys(ChecklistRow(u, tasks, status)))
  {
    assert Keys(ChecklistRow(u, tasks, status)) == ["username", "checklist_tarefas", "checklist_status"];
    assert Keys(ChecklistUpdates(tasks, status)) == ["checklist_tarefas", "checklist_status"];
  }

  /** What `set_checklist` writes, given the table it read. Unlike the guest
      and event setters it has no branch for a sheet without data, so there
      the `username` lookup raises. */
  function ChecklistWrite(f: Frame, u: string, tasks: seq<string>, status: seq<int>): (o: Outcome)
    requires WellFormed(f)
    ensures o.Written? ==> WellFormed(o.table)
  {
    ChecklistKeys(u, tasks, status);
    if "username" !in f.columns then Failed
    else Written(Upsert(f, u, ChecklistRow(u, tasks, status), ChecklistUpdates(tasks, status)))
  }

  /** `set_checklist`. */
  method SetChecklist(sheet: Sheet, u: string, tasks: seq<string>, status: seq<int>) returns (ok: bool)
    requires sheet.Valid()
    modifies sheet
    ensures sheet.Valid()
    ensures var o := Commit(ChecklistWrite(AsRead(old(sheet.Table())), u, tasks, status));
      ok == Succeeded(o) && sheet.Table() == After(old(sheet.Table()), o)
  {
    ChecklistKeys(u, tasks, status);
    var df := sheet.GetAllRecords();
    ghost var w := ChecklistWrite(df, u, tasks, status);
    if "username" !in df.columns {
      return false;
    }
    df := UpsertStep(df, u, ChecklistRow(u, tasks, status), ChecklistUpdates(tasks, status));
    ok := sheet.Overwrite(df);
    CommitWrite(old(sheet.Table()), w, df, ok, sheet.Table());
  }

  // ---------------------------------------------------------------------------
  // Budget: get_orcamento, set_orcamento
  // ---------------------------------------------------------------------------

  /** `get_orcamento`: `Some(c)` when the user's budget cell `c` is true (the
      source then returns `float(c)`), `None` for the `0.0` default. */
  function GetOrcamento(f: Frame, u: string): (r: Option<Cell>)
    requires WellFormed(f)
    ensures r.Some? <==> FirstMatch(f, u).Some? && "orcamento" in f.columns && Truthy(f.rows[FirstMatch(f, u).value]["orcamento"])
    ensures r.Some? ==> r.value == f.rows[FirstMatch(f, u).value]["orcamento"]
  {
    if "username" !in f.columns || "orcamento" !in f.columns then None
    else
      match FirstMatch(f, u)
      case None => None
      case Some(i) => if Truthy(f.rows[i]["orcamento"]) then Some(f.rows[i]["orcamento"]) else None
  }

  /** What `set_orcamento` writes, given the table it read; like
      `set_checklist` it raises on a sheet without data. */
  function OrcamentoWrite(f: Frame, u: string, budget: Cell): (o: Outcome)
    requires WellFormed(f)
    ensures o.Written? ==> WellFormed(o.table)
  {
    assert Keys([Assign("username", Text(u)), Assign("orcamento", budget)]) == ["username", "orcamento"];
    if "username" !in f.columns then Failed
    else Written(Upsert(f, u, [Assign("username", Text(u)), Assign("orcamento", budget)], [Assign("orcamento", budget)]))
  }

  /** `set_orcamento`. */
  method SetOrcamento(sheet: Sheet, u: string, budget: Cell) returns (ok: bool)
    requires sheet.Valid()
    modifies sheet
    ensures sheet.Valid()
    ensures var o := Commit(OrcamentoWrite(AsRead(old(sheet.Table())), u, budget));
      ok == Succeeded(o) && sheet.Table() == After(old(sheet.Table()), o)
  {
    var added, ups := [Assign("username", Text(u)), Assign("orcamento", budget)], [Assign("orcamento", budget)];
    assert Keys(added) == ["username", "orcamento"];
    var df := sheet.GetAllRecords();
    ghost var w := OrcamentoWrite(df, u, budget);
    if "username" !in df.columns {
      return false;
    }
    df := UpsertStep(df, u, added, ups);
    ok := sheet.Overwrite(df);
    CommitWrite(old(sheet.Table()), w, df, ok, sheet.Table());
  }

  // ---------------------------------------------------------------------------
  // Tables kept as encoded text: gastos, presentes, sugestoes, brincadeiras
  // ---------------------------------------------------------------------------

  /** The four collections the store keeps as one encoded cell each. */
  datatype Ledger = Gastos | Presentes | Sugestoes | Brincadeiras

  function LedgerColumn(l: Ledger): (c: string)
    ensures c != "username"
  {
    match l
    case Gastos => "gastos"
    case Presentes => "presentes"
    case Sugestoes => "sugestoes"
    case Brincadeiras => "brincadeiras"
  }

  /** The lookup of `get_gastos` and its siblings: `Some(s)` when the user's
      cell is non-empty text `s` (the source then decodes it), `None` for the
      empty default. */
  function GetLedger(f: Frame, u: string, l: Ledger): (r: Option<string>)
    requires WellFormed(f)
    ensures r.Some? <==>
      (FirstMatch(f, u).Some? && LedgerColumn(l) in f.columns &&
       var c := f.rows[FirstMatch(f, u).value][LedgerColumn(l)]; c.Text? && c.s != "")
    ensures r.Some? ==> Text(r.value) == f.rows[FirstMatch(f, u).value][LedgerColumn(l)]
  {
    var col := LedgerColumn(l);
    if "username" !in f.columns || col !in f.columns then None
    else
      match FirstMatch(f, u)
      case None => None
      case Some(i) =>
        match f.rows[i][col]
        case Text(s) => if s != "" then Some(s) else None
        case _ => None
  }

  /** What `set_gastos` and its siblings write for an already encoded value. */
  function LedgerWrite(f: Frame, u: string, l: Ledger, encoded: string): (o: Outcome)
    requires WellFormed(f)
    ensures o.Written? ==> WellFormed(o.table)
  {
    var col := LedgerColumn(l);
    assert Keys([Assign("username", Text(u)), Assign(col, Text(encoded))]) == ["username", col];
    if "username" !in f.columns then Failed
    else Written(Upsert(f, u, [Assign("username", Text(u)), Assign(col, Text(encoded))], [Assign(col, Text(encoded))]))
  }

  /** `set_gastos`, `set_presentes`, `set_sugestoes`, `set_brincadeiras`. */
  method SetLedger(sheet: Sheet, u: string, l: Ledger, encoded: string) returns (ok: bool)
    requires sheet.Valid()
    modifies sheet
    ensures sheet.Valid()
    ensures var o := Commit(LedgerWrite(AsRead(old(sheet.Table())), u, l, encoded));
      ok == Succeeded(o) && sheet.Table() == After(old(sheet.Table()), o)
  {
    var col := LedgerColumn(l);
    var added, ups := [Assign("username", Text(u)), Assign(col, Text(encoded))], [Assign(col, Text(encoded))];
    assert Keys(added) == ["username", col];
    var df := sheet.GetAllRecords();
    ghost var w := LedgerWrite(df, u, l, encoded);
    if "username" !in df.columns {
      return false;
    }
    df := UpsertStep(df, u, added, ups);
    ok := sheet.Overwrite(df);
    CommitWrite(old(sheet.Table()), w, df, ok, sheet.Table());
  }

  // ---------------------------------------------------------------------------
  // Full reset: reset_all_data_for_user
  // ---------------------------------------------------------------------------

  /** The value reset writes into column `c`: `""` for a text column, `0` for any
      other (the source decides by the column's dtype; here the set of text
      columns is given). */
  function Blank(c: string, textColumns: set<string>): Cell
  {
    if c in textColumns then Text("") else Int(0)
  }

  /** Row `r` with every column outside the identity columns blanked. */
  function ClearedRow(r: Row, textColumns: set<string>): Row
  {
    map c | c in r :: if c in IdentityColumns then r[c] else Blank(c, textColumns)
  }

  /** What `reset_all_data_for_user` writes, given the table it read: nothing
      (and True) for an unknown user. */
  function ResetWrite(f: Frame, u: string, textColumns: set<string>): (o: Outcome)
    requires WellFormed(f)
    ensures o.Written? ==> WellFormed(o.table)
  {
    if "username" !in f.columns then Failed
    else
      match FirstMatch(f, u)
      case None => Unchanged
      case Some(i) => Written(Frame(f.columns, f.rows[i := ClearedRow(f.rows[i], textColumns)]))
  }

  /** Row `r` with the non-identity columns among `done` blanked. */
  function PartlyCleared(r: Row, done: seq<string>, textColumns: set<string>): Row
  {
    map c | c in r :: if c in done && c !in IdentityColumns then Blank(c, textColumns) else r[c]
  }

  lemma PartlyClearedStep(r: Row, done: seq<string>, col: string, textColumns: set<string>)
    requires col in r
    ensures PartlyCleared(r, done + [col], textColumns) ==
      if col in IdentityColumns then PartlyCleared(r, done, textColumns)
      else PartlyCleared(r, done, textColumns)[col := Blank(col, textColumns)]
  {
    assert forall c :: c in done + [col] <==> c in done || c == col;
  }

  lemma PartlyClearedAll(r: Row, cols: seq<string>, textColumns: set<string>)
    requires forall c :: c in r <==> c in cols
    ensures PartlyCleared(r, cols, textColumns) == ClearedRow(r, textColumns)
  {
  }

  /** The loop `for col in df.columns: ... df.at[i, col] = ...` on row `i`. */
  method ClearRow(f: Frame, i: nat, textColumns: set<string>) returns (g: Frame)
    requires WellFormed(f) && i < |f.rows|
    ensures g == Frame(f.columns, f.rows[i := ClearedRow(f.rows[i], textColumns)])
  {
    g := f;
    assert f.columns[..0] == [];
    assert PartlyCleared(f.rows[i], [], textColumns) == f.rows[i];
    assert f.rows[i := f.rows[i]] == f.rows;
    var k := 0;
    while k < |f.columns|
      invariant 0 <= k <= |f.columns|
      invariant g == Frame(f.columns, f.rows[i := PartlyCleared(f.rows[i], f.columns[..k], textColumns)])
    {
      var col := f.columns[k];
      assert f.columns[..k + 1] == f.columns[..k] + [col];
      assert col in f.columns && col in f.rows[i];
      PartlyClearedStep(f.rows[i], f.columns[..k], col, textColumns);
      if col !in IdentityColumns {
        g := Frame(g.columns, g.rows[i := g.rows[i][col := Blank(col, textColumns)]]);
      }
      k := k + 1;
    }
    assert f.columns[..k] == f.columns;
    PartlyClearedAll(f.rows[i], f.columns, textColumns);
  }

  /** `reset_all_data_for_user`. */
  method ResetAllDataForUser(sheet: Sheet, u: string, textColumns: set<string>) returns (ok: bool)
    requires sheet.Valid()
    modifies sheet
    ensures sheet.Valid()
    ensures var o := Commit(ResetWrite(AsRead(old(sheet.Table())), u, textColumns));
      ok == Succeeded(o) && sheet.Table() == After(old(sheet.Table()), o)
  {
    var df := sheet.GetAllRecords();
    ghost var w := ResetWrite(df, u, textColumns);
    if "username" !in df.columns {
      return false;
    }
    var idx := FirstMatch(df, u);
    ok := true;
    if idx.Some? {
      df := ClearRow(df, idx.value, textColumns);
      assert WellFormed(df) && w == Written(df);
      ok := sheet.Overwrite(df);
      CommitWrite(old(sheet.Table()), w, df, ok, sheet.Table());
    }
  }
}
