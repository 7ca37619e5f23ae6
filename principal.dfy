/** The edits the main organiser app (app_principal_backup.py) makes before it
    calls the store: the initial setup form, adding a guest, the checklist
    (add, toggle, delete, pending count), registering a gift and removing a
    game. */
module Principal {
  import opened Cells
  import opened Codec
  import opened Tables
  import opened Backend
  import opened Database
  import opened DatabaseLaws

  // ---------------------------------------------------------------------------
  // Initial setup
  // ---------------------------------------------------------------------------

  /** What the setup form holds when it is submitted; `date` is the chosen
      date already in ISO form, `None` when no date was chosen. */
  datatype SetupForm = SetupForm(
    twins: string, name1: string, sex1: string, name2: string, sex2: string, date: Option<string>)

  /** The event record the setup form sends to the store: `None` (an error
      message, nothing written) when the first baby name is empty. */
  function SetupData(form: SetupForm): (data: Option<map<string, string>>)
    ensures data.None? <==> form.name1 == ""
    ensures data.Some? ==>
      && data.value.Keys == {"setup_completo", "e_gemeos", "nome_bebe_1", "sexo_bebe_1", "nome_bebe_2", "sexo_bebe_2", "data_cha"}
      && data.value["nome_bebe_1"] == form.name1 && data.value["setup_completo"] == "Sim"
      && data.value["data_cha"] == (if form.date.Some? then form.date.value else "")
  {
    if form.name1 == "" then None
    else
      var data := map[
        "setup_completo" := "Sim",
        "e_gemeos" := form.twins,
        "nome_bebe_1" := form.name1,
        "sexo_bebe_1" := form.sex1,
        "nome_bebe_2" := form.name2,
        "sexo_bebe_2" := form.sex2,
        "data_cha" := if form.date.Some? then form.date.value else ""];
      Some(data)
  }

  /** Submitting the setup form: nothing is written when the first name is
      empty, otherwise the record goes to `set_evento_atual`. */
  method SubmitSetup(sheet: Sheet, u: string, form: SetupForm) returns (saved: bool)
    requires sheet.Valid()
    modifies sheet
    ensures sheet.Valid()
    ensures SetupData(form).None? ==> !saved && sheet.Table() == old(sheet.Table())
    ensures SetupData(form).Some? ==>
      var o := Commit(EventoWrite(AsRead(old(sheet.Table())), u, SetupData(form).value));
      saved == Succeeded(o) && sheet.Table() == After(old(sheet.Table()), o)
  {
    var data := SetupData(form);
    if data.None? {
      return false;
    }
    saved := SetEventoAtual(sheet, u, data.value);
  }

  /** The gate before the dashboard: the record's `setup_completo` entry, false
      when the record is empty or lacks it. */
  predicate SetupComplete(e: map<string, Cell>)
  {
    e != map[] && "setup_completo" in e && Truthy(e["setup_completo"])
  }

  /** The store's event read never holds `setup_completo`, so the app never
      gets past the setup screen, whatever the sheet holds. */
  lemma SetupNeverComplete(f: Frame, u: string)
    requires WellFormed(f)
    ensures !SetupComplete(GetEventoAtual(f, u))
  {
    var e := GetEventoAtual(f, u);
    if e != map[] {
      assert e.Keys == {"nome_bebe", "sexo_bebe", "data_cha"};
    }
  }

  /** The setup form sends `nome_bebe_1` and `sexo_bebe_1` while the store reads
      `nome_bebe` and `sexo_bebe`, so a completed setup, when its table is
      stored, leaves an empty baby name and sex; only the date arrives. */
  lemma SetupLosesBabyName(t: Frame, u: string, form: SetupForm)
    requires WellFormed(t) && form.name1 != ""
    ensures var o := Commit(EventoWrite(AsRead(t), u, SetupData(form).value));
      o.Written? ==>
        GetEventoAtual(AsRead(o.table), u) ==
          map["nome_bebe" := Text(""), "sexo_bebe" := Text(""),
              "data_cha" := Text(if form.date.Some? then form.date.value else "")]
  {
    var data := SetupData(form).value;
    EventRoundTrip(t, u, data);
    assert "nome_bebe" !in data && "sexo_bebe" !in data && "data_cha" in data;
  }

  // ---------------------------------------------------------------------------
  // Guests
  // ---------------------------------------------------------------------------

  /** What pressing "Adicionar" on the guest page does. */
  datatype GuestAdd = Save(guests: seq<string>) | AlreadyListed | NameMissing

  /** The guest page's checks, in order: a non-empty name not yet listed is
      saved after the others; a listed name (even the empty one) is a
      warning; anything else asks for a name. */
  function AddGuest(guests: seq<string>, name: string): (r: GuestAdd)
    ensures r.Save? <==> name != "" && name !in guests
    ensures r.Save? ==> r.guests == guests + [name]
    ensures r.AlreadyListed? <==> name in guests
    ensures r.NameMissing? <==> name == "" && name !in guests
  {
    if name != "" && name !in guests then Save(guests + [name])
    else if name in guests then AlreadyListed
    else NameMissing
  }

  /** The button handler: read the guests, decide, and write only on `Save`. */
  method SubmitGuest(sheet: Sheet, u: string, name: string) returns (r: GuestAdd, ok: bool)
    requires sheet.Valid()
    modifies sheet
    ensures sheet.Valid()
    ensures r == AddGuest(GetConvidados(AsRead(old(sheet.Table())), u), name)
    ensures !r.Save? ==> !ok && sheet.Table() == old(sheet.Table())
    ensures r.Save? ==>
      var o := Commit(ConvidadosWrite(AsRead(old(sheet.Table())), u, r.guests));
      ok == Succeeded(o) && sheet.Table() == After(old(sheet.Table()), o)
  {
    var f := sheet.GetAllRecords();
    var guests := GetConvidados(f, u);
    r := AddGuest(guests, name);
    if r.Save? {
      ok := SetConvidados(sheet, u, r.guests);
    } else {
      ok := false;
    }
  }

  /** The guest list read from the store never holds a comma in a name and is
      never the single empty name. */
  lemma GuestsReadNormal(f: Frame, u: string)
    requires WellFormed(f)
    ensures var g := GetConvidados(f, u); NoSep(g, ',') && g != [""]
  {
    var g := GetConvidados(f, u);
    if g != [] {
      var c := f.rows[FirstMatch(f, u).value]["convidados"];
      JoinSplit(c.s, ',');
    }
  }

  /** After a saved guest whose table is stored, reading the list gives the
      old list with the name appended exactly when the name holds no comma (a comma splits it into
      several guests). */
  lemma AddGuestReadBack(t: Frame, u: string, name: string)
    requires WellFormed(t)
    ensures var guests := GetConvidados(AsRead(t), u);
      var r := AddGuest(guests, name);
      r.Save? ==>
        var o := Commit(ConvidadosWrite(AsRead(t), u, r.guests));
        o.Written? ==> (GetConvidados(AsRead(o.table), u) == guests + [name] <==> ',' !in name)
  {
    var guests := GetConvidados(AsRead(t), u);
    var r := AddGuest(guests, name);
    if r.Save? {
      GuestsReadNormal(AsRead(t), u);
      GuestsRoundTrip(t, u, r.guests);
      assert r.guests != [""] by { assert |r.guests| >= 1 && r.guests[|r.guests| - 1] == name; }
      assert NoSep(r.guests, ',') <==> ',' !in name by {
        assert r.guests[|guests|] == name;
        assert forall k :: 0 <= k < |guests| ==> r.guests[k] == guests[k];
      }
    }
  }

  // ---------------------------------------------------------------------------
  // Checklist
  // ---------------------------------------------------------------------------

  /** `sum(xs)`. */
  function Sum(xs: seq<int>): int
  {
    if xs == [] then 0 else xs[0] + Sum(xs[1..])
  }

  /** Number of zero statuses: tasks still open. */
  function CountZeros(xs: seq<int>): nat
  {
    if xs == [] then 0 else (if xs[0] == 0 then 1 else 0) + CountZeros(xs[1..])
  }

  /** Every status is 0 or 1. */
  predicate Binary(xs: seq<int>)
  {
    forall k :: 0 <= k < |xs| ==> xs[k] == 0 || xs[k] == 1
  }

  /** The dashboard's "pending tasks": `len(tarefas) - sum(status)`. */
  function PendingCount(tasks: seq<string>, status: seq<int>): int
  {
    |tasks| - Sum(status)
  }

  /** With one 0/1 status per task the pending count is the number of open
      tasks. */
  lemma {:induction false} PendingIsOpenTasks(tasks: seq<string>, status: seq<int>)
    requires |tasks| == |status| && Binary(status)
    ensures PendingCount(tasks, status) == CountZeros(status)
    decreases |status|
  {
    if status != [] {
      PendingIsOpenTasks(tasks[1..], status[1..]);
    }
  }

  lemma {:induction false} SumAppend(xs: seq<int>, x: int)
    ensures Sum(xs + [x]) == Sum(xs) + x
  {
    if xs != [] {
      assert (xs + [x])[1..] == xs[1..] + [x];
      SumAppend(xs[1..], x);
    } else {
      assert [x][1..] == [];
    }
  }

  lemma {:induction false} SumUpdate(xs: seq<int>, i: nat, v: int)
    requires i < |xs|
    ensures Sum(xs[i := v]) == Sum(xs) - xs[i] + v
  {
    if i > 0 {
      assert xs[i := v][1..] == xs[1..][i - 1 := v];
      SumUpdate(xs[1..], i - 1, v);
    }
  }

  lemma {:induction false} SumRemove(xs: seq<int>, i: nat)
    requires i < |xs|
    ensures Sum(xs[..i] + xs[i + 1..]) == Sum(xs) - xs[i]
  {
    if i == 0 {
      assert xs[..0] + xs[1..] == xs[1..];
    } else {
      assert (xs[..i] + xs[i + 1..])[1..] == xs[1..][..i - 1] + xs[1..][i..];
      SumRemove(xs[1..], i - 1);
    }
  }

  /** The status a checkbox click gives: `1 if not bool(s) else 0`. */
  function Flip(s: int): (r: int)
    ensures r == 0 || r == 1
    ensures (r == 0) <==> s != 0
  {
    if s != 0 then 0 else 1
  }

  /** The list of tasks and the list of statuses the checklist page edits in place. */
  class Checklist {
    var tasks: seq<string>
    var status: seq<int>

    /** One status per task. */
    predicate InStep()
      reads this
    {
      |tasks| == |status|
    }

    constructor (tasks0: seq<string>, status0: seq<int>)
      ensures tasks == tasks0 && status == status0
    {
      tasks := tasks0;
      status := status0;
    }

    /** "Adicionar Tarefa": a non-empty task not yet listed is appended with
        status 0; anything else changes nothing. Returns whether the lists
        changed (and are then saved). */
    method AddTask(text: string) returns (changed: bool)
      modifies this
      ensures changed <==> text != "" && text !in old(tasks)
      ensures changed ==> tasks == old(tasks) + [text] && status == old(status) + [0]
      ensures !changed ==> tasks == old(tasks) && status == old(status)
      ensures old(InStep()) ==> InStep()
    {
      if text != "" && text !in tasks {
        tasks := tasks + [text];
        status := status + [0];
        changed := true;
      } else {
        changed := false;
      }
    }

    /** Clicking the checkbox of task `i`: only `status[i]` flips; `false` is
        the IndexError of a status list shorter than the list of tasks. */
    method Toggle(i: nat) returns (changed: bool)
      requires i < |tasks|
      modifies this
      ensures changed <==> i < |old(status)|
      ensures tasks == old(tasks)
      ensures changed ==> status == old(status)[i := Flip(old(status)[i])]
      ensures !changed ==> status == old(status)
      ensures old(InStep()) ==> InStep() && changed
    {
      if i < |status| {
        status := status[i := Flip(status[i])];
        changed := true;
      } else {
        changed := false;
      }
    }

    /** The delete button of task `i`: that task is popped, then its status.
        The button is only drawn after the checkbox of task `i` has read
        `status[i]`, so the status exists whenever it is clicked. */
    method Delete(i: nat)
      requires i < |tasks| && i < |status|
      modifies this
      ensures tasks == old(tasks)[..i] + old(tasks)[i + 1..]
      ensures status == old(status)[..i] + old(status)[i + 1..]
      ensures |tasks| == |old(tasks)| - 1 && |status| == |old(status)| - 1
      ensures old(InStep()) ==> InStep()
    {
      tasks := tasks[..i] + tasks[i + 1..];
      status := status[..i] + status[i + 1..];
    }
  }

  /** Adding a task adds one pending task. */
  lemma PendingAfterAdd(tasks: seq<string>, status: seq<int>, text: string)
    ensures PendingCount(tasks + [text], status + [0]) == PendingCount(tasks, status) + 1
  {
    SumAppend(status, 0);
  }

  /** Toggling task `i` of 0/1 statuses closes an open task or reopens a
      closed one, and keeps the statuses 0/1. */
  lemma PendingAfterToggle(tasks: seq<string>, status: seq<int>, i: nat)
    requires i < |status| && Binary(status)
    ensures Binary(status[i := Flip(status[i])])
    ensures PendingCount(tasks, status[i := Flip(status[i])]) ==
      PendingCount(tasks, status) + (if status[i] == 0 then -1 else 1)
  {
    SumUpdate(status, i, Flip(status[i]));
  }

  /** Deleting task `i` removes one pending task exactly when it was open. */
  lemma PendingAfterDelete(tasks: seq<string>, status: seq<int>, i: nat)
    requires i < |tasks| && i < |status| && Binary(status)
    ensures PendingCount(tasks[..i] + tasks[i + 1..], status[..i] + status[i + 1..]) ==
      PendingCount(tasks, status) - (if status[i] == 0 then 1 else 0)
  {
    SumRemove(status, i);
  }

  // ---------------------------------------------------------------------------
  // Gifts and games (tables kept as encoded cells)
  // ---------------------------------------------------------------------------

  /** "Registrar Presente": with both fields filled, the gift is appended after
      the existing ones with its thank-you flag set to "Não"; otherwise `None`
      (a warning, nothing written). */
  function RegisterGift(gifts: Frame, guest: string, gift: string): (r: Option<Frame>)
    requires WellFormed(gifts)
    ensures r.None? <==> guest == "" || gift == ""
    ensures r.Some? ==> WellFormed(r.value) && |r.value.rows| == |gifts.rows| + 1
  {
    if guest == "" || gift == "" then None
    else
      assert Keys([Assign("convidado", Text(guest)), Assign("presente", Text(gift)), Assign("agradecimento_enviado", Text("Não"))])
        == ["convidado", "presente", "agradecimento_enviado"];
      Some(AppendRow(gifts, [Assign("convidado", Text(guest)), Assign("presente", Text(gift)), Assign("agradecimento_enviado", Text("Não"))]))
  }

  /** A registered gift is the new last row, names the guest and the gift,
      has not been thanked, and every earlier gift keeps its cells. */
  lemma RegisteredGiftIsLast(gifts: Frame, guest: string, gift: string)
    requires WellFormed(gifts) && guest != "" && gift != ""
    ensures var g := RegisterGift(gifts, guest, gift).value;
      var last := g.rows[|gifts.rows|];
      && "agradecimento_enviado" in last && last["agradecimento_enviado"] == Text("Não")
      && "convidado" in last && last["convidado"] == Text(guest)
      && "presente" in last && last["presente"] == Text(gift)
      && (forall j, c :: 0 <= j < |gifts.rows| && c in gifts.rows[j] ==> c in g.rows[j] && g.rows[j][c] == gifts.rows[j][c])
  {
    var ps := [Assign("convidado", Text(guest)), Assign("presente", Text(gift)), Assign("agradecimento_enviado", Text("Não"))];
    assert Keys(ps) == ["convidado", "presente", "agradecimento_enviado"];
    var g := AppendRow(gifts, ps);
    assert ps[0].col == "convidado" && ps[1].col == "presente" && ps[2].col == "agradecimento_enviado";
  }

  /** "Remover Brincadeira" on the game shown at position `i`: the table
      without that row (the row label from the listing names the same row). */
  function DropGame(games: Frame, i: nat): (r: Frame)
    requires i < |games.rows|
    ensures r.columns == games.columns && |r.rows| == |games.rows| - 1
    ensures forall j :: 0 <= j < i ==> r.rows[j] == games.rows[j]
    ensures forall j :: i <= j < |r.rows| ==> r.rows[j] == games.rows[j + 1]
  {
    Frame(games.columns, games.rows[..i] + games.rows[i + 1..])
  }

  /** Dropping a game keeps the table well formed and removes exactly one
      occurrence of that row. */
  lemma DropGameRemovesOne(games: Frame, i: nat)
    requires WellFormed(games) && i < |games.rows|
    ensures WellFormed(DropGame(games, i))
    ensures multiset(DropGame(games, i).rows) + multiset{games.rows[i]} == multiset(games.rows)
  {
    var r := DropGame(games, i);
    assert games.rows == games.rows[..i] + [games.rows[i]] + games.rows[i + 1..];
    assert r.rows == games.rows[..i] + games.rows[i + 1..];
  }
}
