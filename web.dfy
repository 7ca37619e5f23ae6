/** The web variant of the app (app_cha_de_bebe_web.py): the users dictionary
    built from the users table, the custom registration form, the gate that
    decides whether the event still needs configuring, and the event form. */
module Web {
  import opened Cells
  import opened Tables
  import opened Backend
  import opened Database
  import opened DatabaseLaws

  // ---------------------------------------------------------------------------
  // The users dictionary
  // ---------------------------------------------------------------------------

  /** The value `users_dict` holds for one username. */
  datatype Details = Details(name: Cell, email: Cell, password: Cell)

  /** A Python dict from username cell to details: `keys` in insertion order,
      `entries` the mapping. */
  datatype UsersDict = UsersDict(keys: seq<Cell>, entries: map<Cell, Details>)

  /** Each key once, and exactly the keys of the mapping. */
  ghost predicate DictValid(d: UsersDict)
  {
    Distinct(d.keys) && forall k :: k in d.entries <==> k in d.keys
  }

  /** `d[k] = v`: an existing key keeps its place, a new key goes last. */
  function Insert(d: UsersDict, k: Cell, v: Details): UsersDict
  {
    UsersDict(if k in d.entries then d.keys else d.keys + [k], d.entries[k := v])
  }

  /** Assignment keeps the dictionary valid: it gains `k` if it lacked it, the
      others keep their place and value, and `k` maps to `v`. */
  lemma InsertValid(d: UsersDict, k: Cell, v: Details)
    requires DictValid(d)
    ensures var r := Insert(d, k, v);
      && DictValid(r) && r.entries[k] == v
      && |d.keys| <= |r.keys| && r.keys[..|d.keys|] == d.keys
      && (k in d.entries ==> |r.keys| == |d.keys|)
      && (k !in d.entries ==> |r.keys| == |d.keys| + 1)
      && (forall q :: q in d.entries && q != k ==> r.entries[q] == d.entries[q])
  {
    var r := Insert(d, k, v);
    if k !in d.entries {
      assert r.keys == d.keys + [k];
      forall a, b | 0 <= a < b < |r.keys| ensures r.keys[a] != r.keys[b] {
        if b == |d.keys| {
          assert r.keys[a] == d.keys[a];
          assert d.keys[a] in d.keys;
        }
      }
    }
  }

  /** The shape of what `fetch_all_users` returns. */
  ghost predicate UsersShape(users: Frame)
  {
    WellFormed(users) && users.columns == IdentityColumns
  }

  lemma UsersShapeCells(users: Frame, j: nat)
    requires UsersShape(users) && j < |users.rows|
    ensures "username" in users.rows[j] && "email" in users.rows[j]
    ensures "name" in users.rows[j] && "password" in users.rows[j]
  {
    assert IdentityColumns[0] == "username" && IdentityColumns[1] == "email";
    assert IdentityColumns[2] == "name" && IdentityColumns[3] == "password";
    assert "username" in users.columns && "email" in users.columns;
    assert "name" in users.columns && "password" in users.columns;
  }

  /** A row of the users table is the row of its username and details. */
  lemma UsersShapeRow(users: Frame, j: nat)
    requires UsersShape(users) && j < |users.rows|
    ensures users.rows[j] == UsersRow(UserKey(users, j), UserDetails(users, j))
  {
    var r := users.rows[j];
    assert forall c :: c in r <==> c in IdentityColumns;
  }

  /** `row['username']` of row `j`. */
  function UserKey(users: Frame, j: nat): Cell
    requires UsersShape(users) && j < |users.rows|
  {
    UsersShapeCells(users, j);
    users.rows[j]["username"]
  }

  /** The details of row `j`. */
  function UserDetails(users: Frame, j: nat): Details
    requires UsersShape(users) && j < |users.rows|
  {
    UsersShapeCells(users, j);
    var r := users.rows[j];
    Details(r["name"], r["email"], r["password"])
  }

  /** The dictionary after the loop has seen the first `n` rows. */
  function DictOf(users: Frame, n: nat): UsersDict
    requires UsersShape(users) && n <= |users.rows|
  {
    if n == 0 then UsersDict([], map[])
    else Insert(DictOf(users, n - 1), UserKey(users, n - 1), UserDetails(users, n - 1))
  }

  /** The loop at the top of the script: `users_dict[row['username']] = ...`
      for every row of a non-empty users table. */
  method BuildUsersDict(users: Frame) returns (d: UsersDict)
    requires UsersShape(users)
    ensures DictValid(d) && d == DictOf(users, |users.rows|)
  {
    d := UsersDict([], map[]);
    if !IsEmpty(users) {
      var j := 0;
      while j < |users.rows|
        invariant j <= |users.rows|
        invariant DictValid(d) && d == DictOf(users, j)
      {
        var k, v := UserKey(users, j), UserDetails(users, j);
        InsertValid(d, k, v);
        d := Insert(d, k, v);
        j := j + 1;
      }
    }
  }

  /** The user `k` is the username of a row before `n`. */
  predicate SeenBefore(users: Frame, n: nat, k: Cell)
    requires UsersShape(users) && n <= |users.rows|
  {
    exists j :: 0 <= j < n && UserKey(users, j) == k
  }

  /** Row `j` is the last row before `n` holding its username. */
  predicate LastOfUser(users: Frame, n: nat, j: nat)
    requires UsersShape(users) && j < n <= |users.rows|
  {
    forall m :: j < m < n ==> UserKey(users, m) != UserKey(users, j)
  }

  /** The dictionary is valid and holds exactly the usernames of the rows
      seen. */
  lemma {:induction false} DictOfKeys(users: Frame, n: nat)
    requires UsersShape(users) && n <= |users.rows|
    ensures DictValid(DictOf(users, n))
    ensures forall k :: k in DictOf(users, n).entries <==> SeenBefore(users, n, k)
  {
    if n > 0 {
      DictOfKeys(users, n - 1);
      var d := DictOf(users, n - 1);
      var k := UserKey(users, n - 1);
      InsertValid(d, k, UserDetails(users, n - 1));
      forall q ensures q in DictOf(users, n).entries <==> SeenBefore(users, n, q) {
        if SeenBefore(users, n, q) && q != k {
          var j :| 0 <= j < n && UserKey(users, j) == q;
          assert SeenBefore(users, n - 1, q);
        }
      }
    }
  }

  /** Each username maps to the details of the last row holding it. */
  lemma {:induction false} DictOfLast(users: Frame, n: nat, j: nat)
    requires UsersShape(users) && j < n <= |users.rows| && LastOfUser(users, n, j)
    ensures UserKey(users, j) in DictOf(users, n).entries
    ensures DictOf(users, n).entries[UserKey(users, j)] == UserDetails(users, j)
  {
    if j < n - 1 {
      assert UserKey(users, n - 1) != UserKey(users, j);
      assert LastOfUser(users, n - 1, j);
      DictOfLast(users, n - 1, j);
    }
  }

  // ---------------------------------------------------------------------------
  // Registration
  // ---------------------------------------------------------------------------

  /** The registration form as submitted. */
  datatype RegistrationForm = RegistrationForm(
    username: string, name: string, email: string, password: string, confirm: string)

  /** The result of the form's checks, made in this order. */
  datatype Registration = EmptyField | PasswordMismatch | UserExists | Registered(dict: UsersDict)

  /** The details stored for a new user; `hash` stands for the
      authentication library's password hasher. */
  function NewDetails(form: RegistrationForm, hash: string -> string): Details
  {
    Details(Text(form.name), Text(form.email), Text(hash(form.password)))
  }

  /** The form's checks: any empty field first, then the confirmation, then an
      existing username; otherwise the user is added to the dictionary. */
  function CheckRegistration(d: UsersDict, form: RegistrationForm, hash: string -> string): (r: Registration)
    ensures r.EmptyField? <==> form.username == "" || form.password == "" || form.name == "" || form.email == ""
    ensures r.PasswordMismatch? <==> !r.EmptyField? && form.password != form.confirm
    ensures r.UserExists? <==> !r.EmptyField? && !r.PasswordMismatch? && Text(form.username) in d.entries
    ensures r.Registered? ==> r.dict == Insert(d, Text(form.username), NewDetails(form, hash))
  {
    if form.username == "" || form.password == "" || form.name == "" || form.email == "" then EmptyField
    else if form.password != form.confirm then PasswordMismatch
    else if Text(form.username) in d.entries then UserExists
    else Registered(Insert(d, Text(form.username), NewDetails(form, hash)))
  }

  /** A successful registration adds exactly one key, last, and every other
      user keeps their name, email and password. */
  lemma RegistrationAddsOneUser(d: UsersDict, form: RegistrationForm, hash: string -> string)
    requires DictValid(d)
    ensures var r := CheckRegistration(d, form, hash);
      r.Registered? ==>
        && DictValid(r.dict)
        && r.dict.keys == d.keys + [Text(form.username)]
        && r.dict.entries[Text(form.username)] == NewDetails(form, hash)
        && (forall k :: k in d.entries ==> r.dict.entries[k] == d.entries[k])
  {
    InsertValid(d, Text(form.username), NewDetails(form, hash));
  }

  /** The row the rebuilt user list holds for one dictionary entry. */
  function UsersRow(k: Cell, det: Details): Row
  {
    map["username" := k, "email" := det.email, "name" := det.name, "password" := det.password]
  }

  /** `new_users_df[['username', 'email', 'name', 'password']]`: one row per
      entry, in the dictionary's order. */
  function UsersFrame(d: UsersDict): (f: Frame)
    requires DictValid(d)
    ensures WellFormed(f) && f.columns == IdentityColumns && |f.rows| == |d.keys|
  {
    var rows := seq(|d.keys|, j requires 0 <= j < |d.keys| => UsersRow(d.keys[j], d.entries[d.keys[j]]));
    assert Distinct(IdentityColumns);
    assert forall c :: c in IdentityColumns <==> c == "username" || c == "email" || c == "name" || c == "password";
    Frame(IdentityColumns, rows)
  }

  /** The loop that builds `new_users_list`, setting `details['username']` on
      every entry. */
  method UsersTable(d: UsersDict) returns (f: Frame)
    requires DictValid(d)
    ensures f == UsersFrame(d)
  {
    var rows: seq<Row> := [];
    var j := 0;
    while j < |d.keys|
      invariant j <= |d.keys|
      invariant rows == UsersFrame(d).rows[..j]
    {
      var k := d.keys[j];
      rows := rows + [UsersRow(k, d.entries[k])];
      j := j + 1;
    }
    f := Frame(IdentityColumns, rows);
  }

  /** Reading the users back from the table written rebuilds the same
      dictionary. */
  lemma UsersFrameRoundTrip(d: UsersDict)
    requires DictValid(d)
    ensures FetchAllUsers(UsersFrame(d)) == UsersFrame(d)
    ensures DictOf(UsersFrame(d), |d.keys|) == d
  {
    var f := UsersFrame(d);
    var p := FetchAllUsers(f);
    assert HasColumns(f, IdentityColumns);
    forall j | 0 <= j < |f.rows| ensures p.rows[j] == f.rows[j] {
      assert forall c :: c in p.rows[j] <==> c in f.rows[j];
    }
    UsersFrameKeys(d);
    UsersFrameEntries(d);
  }

  /** Reading the rebuilt table back in keeps the dictionary's order. */
  lemma UsersFrameKeys(d: UsersDict)
    requires DictValid(d)
    ensures DictOf(UsersFrame(d), |d.keys|).keys == d.keys
  {
    var f := UsersFrame(d);
    forall j | 0 <= j < |d.keys| ensures UserKey(f, j) == d.keys[j] {
      assert f.rows[j] == UsersRow(d.keys[j], d.entries[d.keys[j]]);
    }
    DictOfOrder(f, d.keys, |d.keys|);
    assert d.keys[..|d.keys|] == d.keys;
  }

  /** Reading the rebuilt table back in gives every user its own details. */
  lemma UsersFrameEntries(d: UsersDict)
    requires DictValid(d)
    ensures DictOf(UsersFrame(d), |d.keys|).entries == d.entries
  {
    var f, n := UsersFrame(d), |d.keys|;
    var r := DictOf(f, n);
    forall j | 0 <= j < n ensures UserKey(f, j) == d.keys[j] && UserDetails(f, j) == d.entries[d.keys[j]] {
      assert f.rows[j] == UsersRow(d.keys[j], d.entries[d.keys[j]]);
    }
    DictOfKeys(f, n);
    forall k | k in d.entries ensures k in r.entries && r.entries[k] == d.entries[k] {
      var j :| 0 <= j < n && d.keys[j] == k;
      assert SeenBefore(f, n, k);
      assert LastOfUser(f, n, j);
      DictOfLast(f, n, j);
    }
    forall k | k in r.entries ensures k in d.entries {
      assert SeenBefore(f, n, k);
      var j :| 0 <= j < n && UserKey(f, j) == k;
      assert d.keys[j] in d.keys;
    }
  }

  /** Rows whose usernames are distinct give the keys in row order. */
  lemma {:induction false} DictOfOrder(f: Frame, ks: seq<Cell>, n: nat)
    requires UsersShape(f) && Distinct(ks) && n <= |ks| && n <= |f.rows|
    requires forall j :: 0 <= j < n ==> UserKey(f, j) == ks[j]
    ensures DictOf(f, n).keys == ks[..n]
  {
    if n > 0 {
      DictOfOrder(f, ks, n - 1);
      DictOfKeys(f, n - 1);
      var key := UserKey(f, n - 1);
      forall j | 0 <= j < n - 1 ensures UserKey(f, j) != key {
        assert ks[j] != ks[n - 1];
      }
      assert !SeenBefore(f, n - 1, key);
      assert ks[..n] == ks[..n - 1] + [key];
    }
  }

  /** No key and no detail of the dictionary is NaN. */
  predicate DictNanFree(d: UsersDict)
  {
    forall k :: k in d.entries ==>
      && k != Missing && d.entries[k].name != Missing
      && d.entries[k].email != Missing && d.entries[k].password != Missing
  }

  /** The users read from a sheet without NaN hold none. */
  lemma FetchAllUsersNanFree(f: Frame)
    requires WellFormed(f) && NanFree(f)
    ensures NanFree(FetchAllUsers(f))
  {
    var users := FetchAllUsers(f);
    forall j, c | 0 <= j < |users.rows| && c in users.rows[j] ensures users.rows[j][c] != Missing {
      assert c in IdentityColumns;
    }
  }

  /** So the dictionary built from them holds no NaN either. */
  lemma {:induction false} DictOfNanFree(users: Frame, n: nat)
    requires UsersShape(users) && NanFree(users) && n <= |users.rows|
    ensures DictNanFree(DictOf(users, n))
  {
    if n > 0 {
      DictOfNanFree(users, n - 1);
      UsersShapeCells(users, n - 1);
      var d, k, det := DictOf(users, n - 1), UserKey(users, n - 1), UserDetails(users, n - 1);
      assert k != Missing && det.name != Missing && det.email != Missing && det.password != Missing;
      assert DictOf(users, n).entries == d.entries[k := det];
    }
  }

  /** And neither does the users table rebuilt from such a dictionary, so
      `update_users` stores it. */
  lemma UsersFrameNanFree(d: UsersDict)
    requires DictValid(d) && DictNanFree(d)
    ensures NanFree(UsersFrame(d))
  {
    var f := UsersFrame(d);
    forall j, c | 0 <= j < |f.rows| && c in f.rows[j] ensures f.rows[j][c] != Missing {
      assert d.keys[j] in d.entries;
    }
  }

  /** Hence a registration against the users of a sheet without NaN builds
      a valid dictionary whose table `update_users` stores. */
  lemma RegisteredStored(f: Frame, form: RegistrationForm, hash: string -> string)
    requires WellFormed(f) && NanFree(f)
    ensures var users := FetchAllUsers(f);
      var r := CheckRegistration(DictOf(users, |users.rows|), form, hash);
      r.Registered? ==> DictValid(r.dict) && NanFree(UsersFrame(r.dict))
  {
    var users := FetchAllUsers(f);
    var d := DictOf(users, |users.rows|);
    var r := CheckRegistration(d, form, hash);
    if r.Registered? {
      DictOfKeys(users, |users.rows|);
      FetchAllUsersNanFree(f);
      DictOfNanFree(users, |users.rows|);
      InsertValid(d, Text(form.username), NewDetails(form, hash));
      UsersFrameNanFree(r.dict);
    }
  }

  /** The submit handler as written: read the users, check the form, and on
      success overwrite the sheet with the rebuilt users table. */
  method Register(sheet: Sheet, form: RegistrationForm, hash: string -> string) returns (r: Registration, ok: bool)
    requires sheet.Valid()
    modifies sheet
    ensures sheet.Valid()
    ensures r == CheckRegistration(DictOf(FetchAllUsers(AsRead(old(sheet.Table()))), |FetchAllUsers(AsRead(old(sheet.Table()))).rows|), form, hash)
    ensures !r.Registered? ==> !ok && sheet.Table() == old(sheet.Table())
    ensures r.Registered? ==> DictValid(r.dict) && ok && sheet.Table() == UsersFrame(r.dict)
  {
    var f := sheet.GetAllRecords();
    var users := FetchAllUsers(f);
    var d := BuildUsersDict(users);
    r := CheckRegistration(d, form, hash);
    if r.Registered? {
      RegisteredStored(f, form, hash);
      var table := UsersTable(r.dict);
      ok := UpdateUsers(sheet, table);
    } else {
      ok := false;
    }
  }

  /** As written, a registration replaces the sheet with the four identity
      columns only: afterwards every user's guests, checklist, budget and
      encoded tables read as empty. */
  lemma RegistrationWipesData(d: UsersDict, form: RegistrationForm, hash: string -> string, v: string)
    requires DictValid(d)
    ensures var r := CheckRegistration(d, form, hash);
      r.Registered? ==>
        var g := AsRead(UsersFrame(r.dict));
        && g.columns == IdentityColumns
        && GetConvidados(g, v) == []
        && GetChecklist(g, v) == ([], [])
        && GetOrcamento(g, v).None?
        && (forall l :: GetLedger(g, v, l).None?)
  {
    var r := CheckRegistration(d, form, hash);
    if r.Registered? {
      RegistrationAddsOneUser(d, form, hash);
      var g := UsersFrame(r.dict);
      assert |g.rows| > 0;
      forall l ensures LedgerColumn(l) !in IdentityColumns { }
    }
  }

  /** A sheet with one user, "ana", who has saved the guest "Bia". */
  const SampleSheet: Frame :=
    Frame(["username", "email", "name", "password", "convidados"],
          [map["username" := Text("ana"), "email" := Text("a"), "name" := Text("Ana"),
               "password" := Text("h"), "convidados" := Text("Bia")]])

  /** A registration form for a new user "caio". */
  const SampleForm: RegistrationForm := RegistrationForm("caio", "Caio", "c", "pw", "pw")

  lemma SampleSheetGuests()
    ensures WellFormed(SampleSheet)
    ensures GetConvidados(SampleSheet, "ana") == ["Bia"]
  {
    var t := SampleSheet;
    assert Distinct(t.columns);
    assert FirstMatch(t, "ana") == Some(0);
    Codec.SplitNoSep("Bia", ',');
  }

  /** A concrete case: "ana" loses her saved guest as soon as "caio"
      registers. */
  lemma RegistrationLosesGuests(hash: string -> string)
    ensures WellFormed(SampleSheet) && GetConvidados(SampleSheet, "ana") == ["Bia"]
    ensures var r := CheckRegistration(DictOf(FetchAllUsers(SampleSheet), 1), SampleForm, hash);
      r.Registered? && DictValid(r.dict) && GetConvidados(UsersFrame(r.dict), "ana") == []
  {
    SampleSheetGuests();
    var users := FetchAllUsers(SampleSheet);
    DictOfKeys(users, 1);
    var d := DictOf(users, 1);
    assert UserKey(users, 0) == Text("ana");
    assert !SeenBefore(users, 1, Text("caio"));
    RegistrationWipesData(d, SampleForm, hash, "ana");
    RegistrationAddsOneUser(d, SampleForm, hash);
    var g := UsersFrame(Insert(d, Text("caio"), NewDetails(SampleForm, hash)));
    assert AsRead(g) == g;
  }

  /** The new user's row for the corrected handler: username, email, name
      and the hashed password. */
  function NewUserRow(form: RegistrationForm, hash: string -> string): (ps: seq<Assign>)
    ensures Distinct(Keys(ps)) && Keys(ps) == IdentityColumns
  {
    var ps := [ Assign("username", Text(form.username)), Assign("email", Text(form.email)),
                Assign("name", Text(form.name)), Assign("password", Text(hash(form.password))) ];
    assert Keys(ps) == IdentityColumns;
    ps
  }

  /** The handler as evidently intended: append the new user's row to the
      whole table instead of replacing the table with the users alone, and
      fill the NaN the append leaves with `""` before the update, so the
      update always goes through. */
  method RegisterKeepingData(sheet: Sheet, form: RegistrationForm, hash: string -> string) returns (r: Registration, ok: bool)
    requires sheet.Valid()
    modifies sheet
    ensures sheet.Valid()
    ensures r == CheckRegistration(DictOf(FetchAllUsers(AsRead(old(sheet.Table()))), |FetchAllUsers(AsRead(old(sheet.Table()))).rows|), form, hash)
    ensures !r.Registered? ==> !ok && sheet.Table() == old(sheet.Table())
    ensures r.Registered? ==> ok && sheet.Table() == FillNaN(AppendRow(AsRead(old(sheet.Table())), NewUserRow(form, hash)))
  {
    var f := sheet.GetAllRecords();
    var users := FetchAllUsers(f);
    var d := BuildUsersDict(users);
    r := CheckRegistration(d, form, hash);
    if r.Registered? {
      ok := sheet.Overwrite(FillNaN(AppendRow(f, NewUserRow(form, hash))));
    } else {
      ok := false;
    }
  }

  /** On a sheet with the four identity columns, a user the checks accept has
      no row yet. */
  lemma RegisteredHasNoRow(t: Frame, form: RegistrationForm, hash: string -> string)
    requires WellFormed(t) && HasColumns(AsRead(t), IdentityColumns)
    ensures var users := FetchAllUsers(AsRead(t));
      CheckRegistration(DictOf(users, |users.rows|), form, hash).Registered? ==>
        FirstMatch(AsRead(t), form.username).None?
  {
    var f := AsRead(t);
    var users := FetchAllUsers(f);
    DictOfKeys(users, |users.rows|);
    if FirstMatch(f, form.username).Some? {
      var j := FirstMatch(f, form.username).value;
      assert "username" in IdentityColumns;
      assert UserKey(users, j) == Text(form.username);
      assert SeenBefore(users, |users.rows|, Text(form.username));
    }
  }

  /** The corrected registration keeps every other user's record, so their
      guests, budget, encoded tables and event read as before, and their
      checklist too unless the sheet held one checklist column without the
      other; the new user is found with the submitted details. */
  lemma RegisterKeepingDataIsolates(t: Frame, form: RegistrationForm, hash: string -> string, v: string)
    requires WellFormed(t) && NanFree(t) && v != form.username
    requires t.rows == [] || "username" in t.columns
    requires FirstMatch(AsRead(t), form.username).None?
    ensures var f := AsRead(t);
      var g := FillNaN(AppendRow(f, NewUserRow(form, hash)));
      && SameReads(f, g, v)
      && (("checklist_tarefas" in f.columns <==> "checklist_status" in f.columns) ==>
            GetChecklist(g, v) == GetChecklist(f, v))
      && FirstMatch(g, form.username) == Some(|f.rows|)
      && forall a :: a in NewUserRow(form, hash) ==> a.col in g.rows[|f.rows|] && g.rows[|f.rows|][a.col] == a.val
  {
    var f := AsRead(t);
    var ps := NewUserRow(form, hash);
    NewUserRowFilled(f, form, hash);
    var g := FillNaN(AppendRow(f, ps));
    FilledRecordReads(f, g, v);
    forall a | a in ps ensures a.col in g.rows[|f.rows|] && g.rows[|f.rows|][a.col] == a.val {
      var k :| 0 <= k < |ps| && ps[k] == a;
    }
  }

  /** The corrected registration on a sheet read from storage is a filled
      append of a NaN-free row naming the new user. */
  lemma NewUserRowFilled(f: Frame, form: RegistrationForm, hash: string -> string)
    requires WellFormed(f) && NanFree(f) && FirstMatch(f, form.username).None?
    requires f.rows == [] || "username" in f.columns
    ensures var g := FillNaN(AppendRow(f, NewUserRow(form, hash)));
      && WellFormed(g) && |g.rows| == |f.rows| + 1
      && (forall c :: c in g.columns <==> c in f.columns || c in IdentityColumns)
      && (forall j, c :: 0 <= j < |f.rows| && c in f.rows[j] ==> c in g.rows[j] && g.rows[j][c] == f.rows[j][c])
      && (forall j, c :: 0 <= j < |f.rows| && c in g.rows[j] && c !in f.rows[j] ==> g.rows[j][c] == Text(""))
      && (forall k :: 0 <= k < 4 ==>
            NewUserRow(form, hash)[k].col in g.rows[|f.rows|] && g.rows[|f.rows|][NewUserRow(form, hash)[k].col] == NewUserRow(form, hash)[k].val)
      && FirstMatch(g, form.username) == Some(|f.rows|)
      && (forall v :: v != form.username ==> FirstMatch(g, v) == FirstMatch(f, v))
  {
    var ps := NewUserRow(form, hash);
    assert ps[0] == Assign("username", Text(form.username));
    assert ValuesOnly(ps);
    FilledAppend(f, form.username, ps);
  }

  /** On a sheet with the four identity columns, the users read after the
      corrected registration are the users read before, then the new user. */
  lemma RegisterKeepingDataAddsUser(t: Frame, form: RegistrationForm, hash: string -> string)
    requires WellFormed(t) && NanFree(t) && HasColumns(AsRead(t), IdentityColumns)
    requires FirstMatch(AsRead(t), form.username).None?
    ensures var f := AsRead(t);
      var g := FillNaN(AppendRow(f, NewUserRow(form, hash)));
      FetchAllUsers(g).rows == FetchAllUsers(f).rows + [UsersRow(Text(form.username), NewDetails(form, hash))]
  {
    var f := AsRead(t);
    var g := FillNaN(AppendRow(f, NewUserRow(form, hash)));
    var before, after := FetchAllUsers(f), FetchAllUsers(g);
    var added := UsersRow(Text(form.username), NewDetails(form, hash));
    OldUsersKept(f, form, hash);
    NewUserLast(f, form, hash);
    Snoc(after.rows, before.rows, added);
  }

  lemma Snoc<T>(s: seq<T>, init: seq<T>, last: T)
    requires |s| == |init| + 1 && s[..|init|] == init && s[|init|] == last
    ensures s == init + [last]
  {
    assert s == s[..|init|] + [s[|init|]];
  }

  lemma OldUsersKept(f: Frame, form: RegistrationForm, hash: string -> string)
    requires WellFormed(f) && NanFree(f) && HasColumns(f, IdentityColumns) && FirstMatch(f, form.username).None?
    ensures var g := FillNaN(AppendRow(f, NewUserRow(form, hash)));
      && HasColumns(g, IdentityColumns) && |FetchAllUsers(g).rows| == |f.rows| + 1
      && FetchAllUsers(g).rows[..|f.rows|] == FetchAllUsers(f).rows
  {
    assert "username" in IdentityColumns;
    NewUserRowFilled(f, form, hash);
    var g := FillNaN(AppendRow(f, NewUserRow(form, hash)));
    assert HasColumns(g, IdentityColumns);
    AccountsPrefix(f, g);
  }

  lemma NewUserLast(f: Frame, form: RegistrationForm, hash: string -> string)
    requires WellFormed(f) && NanFree(f) && HasColumns(f, IdentityColumns) && FirstMatch(f, form.username).None?
    ensures var g := FillNaN(AppendRow(f, NewUserRow(form, hash)));
      && HasColumns(g, IdentityColumns) && |f.rows| < |FetchAllUsers(g).rows|
      && FetchAllUsers(g).rows[|f.rows|] == UsersRow(Text(form.username), NewDetails(form, hash))
  {
    assert "username" in IdentityColumns;
    NewUserRowFilled(f, form, hash);
    var g := FillNaN(AppendRow(f, NewUserRow(form, hash)));
    var after := FetchAllUsers(g);
    assert HasColumns(g, IdentityColumns);
    var ps := NewUserRow(form, hash);
    assert ps[0].col == "username" && ps[1].col == "email" && ps[2].col == "name" && ps[3].col == "password";
    UsersShapeRow(after, |f.rows|);
  }

  // ---------------------------------------------------------------------------
  // The event gate and the event form
  // ---------------------------------------------------------------------------

  /** The test at the start of the logged-in page: the event still needs
      configuring when the record is empty or its `nome_bebe` is missing or
      false (a NaN name counts as configured). */
  predicate EventUnconfigured(e: map<string, Cell>)
  {
    e == map[] || "nome_bebe" !in e || !Truthy(e["nome_bebe"])
  }

  /** On what the store reads, the gate asks for configuration exactly when
      the user has no row or the row's `nome_bebe` is absent or false. */
  lemma GateOnStore(f: Frame, u: string)
    requires WellFormed(f)
    ensures EventUnconfigured(GetEventoAtual(f, u)) <==>
      FirstMatch(f, u).None? || !Truthy(RowGet(f.rows[FirstMatch(f, u).value], "nome_bebe"))
  {
    if FirstMatch(f, u).Some? {
      assert "username" in f.rows[FirstMatch(f, u).value];
    }
  }

  /** Python's `str.isspace` for one character. */
  predicate IsSpace(c: char)
  {
    || c == ' ' || ('\t' <= c <= '\r') || ('\U{1C}' <= c <= '\U{1F}')
    || c == '\U{85}' || c == '\U{A0}' || c == '\U{1680}' || ('\U{2000}' <= c <= '\U{200A}')
    || c == '\U{2028}' || c == '\U{2029}' || c == '\U{202F}' || c == '\U{205F}' || c == '\U{3000}'
  }

  predicate AllSpace(s: string)
  {
    forall k :: 0 <= k < |s| ==> IsSpace(s[k])
  }

  function TrimStart(s: string): (r: string)
    ensures r == "" || !IsSpace(r[0])
    ensures |r| <= |s| && r == s[|s| - |r|..]
  {
    if s != [] && IsSpace(s[0]) then TrimStart(s[1..]) else s
  }

  function TrimEnd(s: string): (r: string)
    ensures r == "" || !IsSpace(r[|r| - 1])
    ensures |r| <= |s| && r == s[..|r|]
  {
    if s != [] && IsSpace(s[|s| - 1]) then TrimEnd(s[..|s| - 1]) else s
  }

  /** `s.strip()`: without leading or trailing whitespace. */
  function Strip(s: string): string
  {
    TrimEnd(TrimStart(s))
  }

  lemma {:induction false} TrimStartEmpty(s: string)
    ensures TrimStart(s) == "" <==> AllSpace(s)
  {
    if s != [] && IsSpace(s[0]) {
      TrimStartEmpty(s[1..]);
      assert forall k :: 1 <= k < |s| ==> s[k] == s[1..][k - 1];
    }
  }

  /** Stripping leaves nothing exactly when the text is all whitespace, and
      otherwise leaves text that starts and ends with a non-space. */
  lemma StripEmpty(s: string)
    ensures Strip(s) == "" <==> AllSpace(s)
    ensures Strip(s) != "" ==> !IsSpace(Strip(s)[0]) && !IsSpace(Strip(s)[|Strip(s)| - 1])
  {
    TrimStartEmpty(s);
    var x := TrimStart(s);
    assert Strip(s) == TrimEnd(x);
    if x != "" {
      TrimEndKeepsFirst(x);
      var y := TrimEnd(x);
      assert y == x[..|y|];
      assert y[0] == x[0];
    }
  }

  lemma {:induction false} TrimEndKeepsFirst(x: string)
    requires x != "" && !IsSpace(x[0])
    ensures TrimEnd(x) != ""
  {
    if IsSpace(x[|x| - 1]) {
      TrimEndKeepsFirst(x[..|x| - 1]);
    }
  }

  /** The event form as submitted; `date` is the picked date in ISO form. */
  datatype EventForm = EventForm(name: string, sex: string, dateUndefined: bool, date: string)

  /** The record the event form sends, as written: the name is checked before
      stripping and stored stripped. */
  function WebEventData(form: EventForm): (data: Option<map<string, string>>)
    ensures data.None? <==> form.name == ""
    ensures data.Some? ==> data.value.Keys == {"nome_bebe", "sexo_bebe", "data_cha"}
    ensures data.Some? ==> data.value["nome_bebe"] == Strip(form.name)
    ensures data.Some? ==> data.value["data_cha"] == if form.dateUndefined then "" else form.date
  {
    if form.name == "" then None
    else Some(map["nome_bebe" := Strip(form.name), "sexo_bebe" := form.sex,
                  "data_cha" := if !form.dateUndefined then form.date else ""])
  }

  /** The form with the check made on the stripped name, as evidently
      intended. */
  function WebEventDataChecked(form: EventForm): (data: Option<map<string, string>>)
    ensures data.None? <==> Strip(form.name) == ""
    ensures data.Some? ==> data.value.Keys == {"nome_bebe", "sexo_bebe", "data_cha"}
    ensures data.Some? ==> data.value["nome_bebe"] == Strip(form.name)
  {
    if Strip(form.name) == "" then None
    else Some(map["nome_bebe" := Strip(form.name), "sexo_bebe" := form.sex,
                  "data_cha" := if !form.dateUndefined then form.date else ""])
  }

  /** "Salvar e Continuar". */
  method SubmitEvent(sheet: Sheet, u: string, form: EventForm) returns (saved: bool)
    requires sheet.Valid()
    modifies sheet
    ensures sheet.Valid()
    ensures WebEventData(form).None? ==> !saved && sheet.Table() == old(sheet.Table())
    ensures WebEventData(form).Some? ==>
      var o := Commit(EventoWrite(AsRead(old(sheet.Table())), u, WebEventData(form).value));
      saved == Succeeded(o) && sheet.Table() == After(old(sheet.Table()), o)
  {
    var data := WebEventData(form);
    if data.None? {
      return false;
    }
    saved := SetEventoAtual(sheet, u, data.value);
  }

  /** "Salvar e Continuar" with the check on the stripped name. */
  method SubmitEventChecked(sheet: Sheet, u: string, form: EventForm) returns (saved: bool)
    requires sheet.Valid()
    modifies sheet
    ensures sheet.Valid()
    ensures WebEventDataChecked(form).None? ==> !saved && sheet.Table() == old(sheet.Table())
    ensures WebEventDataChecked(form).Some? ==>
      var o := Commit(EventoWrite(AsRead(old(sheet.Table())), u, WebEventDataChecked(form).value));
      saved == Succeeded(o) && sheet.Table() == After(old(sheet.Table()), o)
  {
    var data := WebEventDataChecked(form);
    if data.None? {
      return false;
    }
    saved := SetEventoAtual(sheet, u, data.value);
  }

  /** As written, a name made only of whitespace passes the check, is saved as
      `""`, and the gate still asks for configuration afterwards. */
  lemma WhitespaceNameStaysUnconfigured(t: Frame, u: string, form: EventForm)
    requires WellFormed(t) && form.name != "" && AllSpace(form.name)
    ensures WebEventData(form).Some?
    ensures var o := Commit(EventoWrite(AsRead(t), u, WebEventData(form).value));
      o.Written? ==> EventUnconfigured(GetEventoAtual(AsRead(o.table), u))
  {
    StripEmpty(form.name);
    EventRoundTrip(t, u, WebEventData(form).value);
  }

  /** With the check on the stripped name, a saved event always passes the
      gate, and its name is the stripped name typed. */
  lemma CheckedEventIsConfigured(t: Frame, u: string, form: EventForm)
    requires WellFormed(t)
    ensures var data := WebEventDataChecked(form);
      data.Some? ==>
        var o := Commit(EventoWrite(AsRead(t), u, data.value));
        o.Written? ==>
          && !EventUnconfigured(GetEventoAtual(AsRead(o.table), u))
          && GetEventoAtual(AsRead(o.table), u)["nome_bebe"] == Text(Strip(form.name))
  {
    var data := WebEventDataChecked(form);
    if data.Some? {
      NamedEventIsConfigured(t, u, data.value);
    }
  }

  /** Saving event data with a non-empty name configures the event, and the
      name read back is the one saved. */
  lemma NamedEventIsConfigured(t: Frame, u: string, data: map<string, string>)
    requires WellFormed(t) && "nome_bebe" in data && data["nome_bebe"] != ""
    ensures var o := Commit(EventoWrite(AsRead(t), u, data));
      o.Written? ==>
        && !EventUnconfigured(GetEventoAtual(AsRead(o.table), u))
        && GetEventoAtual(AsRead(o.table), u)["nome_bebe"] == Text(data["nome_bebe"])
  {
    EventRoundTrip(t, u, data);
    var o := Commit(EventoWrite(AsRead(t), u, data));
    if o.Written? {
      var e := GetEventoAtual(AsRead(o.table), u);
      var m := map["nome_bebe" := DataGet(data, "nome_bebe"), "sexo_bebe" := DataGet(data, "sexo_bebe"),
                   "data_cha" := DataGet(data, "data_cha")];
      assert e == m;
      assert m["nome_bebe"] == Text(data["nome_bebe"]);
    }
  }
}
