// The one-time rebuild of the ClickHouse windows table at startup, which may stop at any statement
// and is started again from whatever tables it left behind.
module Migration {
  type Row = nat

  datatype Name = Live | V2 | Old

  /** `clock` tells whether the table has the `updated_at` column. */
  datatype Table = Table(rows: set<Row>, clock: bool)

  type Tables = map<Name, Table>

  datatype Stmt =
    | CountLive
    | CountStaged(name: Name)
    | Recover(name: Name)
    | CreateLive
    | HasColumn
    | DropV2Before
    | CreateV2
    | Copy
    | Exchange
    | RenameLive
    | RenameV2
    | DropOld
    | DropV2After

  /** How a statement goes: the server refuses it; it takes effect but the answer is lost; or the
      process dies before or after its effect. `copied` is what an unfinished copy had inserted. */
  datatype Fault =
    | Works
    | Refused(copied: set<Row>)
    | Unreported
    | Dies(effect: bool, copied: set<Row>)

  datatype Outcome = Outcome(tables: Tables, ok: bool)

  // ----- statements -----

  predicate CanRename(t: Tables, from: Name, to: Name) { from in t && to !in t }

  function Renamed(t: Tables, from: Name, to: Name): Tables
    requires from in t
  {
    (t - {from})[to := t[from]]
  }

  predicate Legal(t: Tables, s: Stmt) {
    match s
    case Recover(n) => CanRename(t, n, Live)
    case Copy => Live in t && V2 in t
    case Exchange => Live in t && V2 in t
    case RenameLive => CanRename(t, Live, Old)
    case RenameV2 => CanRename(t, V2, Live)
    case _ => true
  }

  function Apply(t: Tables, s: Stmt): Tables
    requires Legal(t, s)
  {
    match s
    case Recover(n) => Renamed(t, n, Live)
    case CreateLive => if Live in t then t else t[Live := Table({}, true)]
    case CreateV2 => if V2 in t then t else t[V2 := Table({}, true)]
    case Copy => t[V2 := t[V2].(rows := t[V2].rows + t[Live].rows)]
    case Exchange => t[Live := t[V2]][V2 := t[Live]]
    case RenameLive => Renamed(t, Live, Old)
    case RenameV2 => Renamed(t, V2, Live)
    case DropV2Before => t - {V2}
    case DropV2After => t - {V2}
    case DropOld => t - {Old}
    case _ => t
  }

  /** What a statement that did not finish leaves; only the copy can stop half way. */
  function Unfinished(t: Tables, s: Stmt, copied: set<Row>): Tables {
    if s == Copy && Live in t && V2 in t then t[V2 := t[V2].(rows := t[V2].rows + copied * t[Live].rows)] else t
  }

  function Exec(t: Tables, s: Stmt, f: Fault): Outcome {
    if !Legal(t, s) then Outcome(t, false) else
      match f
      case Works => Outcome(Apply(t, s), true)
      case Refused(c) => Outcome(Unfinished(t, s, c), false)
      case Unreported => Outcome(Apply(t, s), false)
      case Dies(e, c) => Outcome(if e then Apply(t, s) else Unfinished(t, s, c), false)
  }

  // ----- startup -----

  type Faults = Stmt -> Fault

  /** Statements one after another, up to the first that fails. */
  function Chain(t: Tables, stmts: seq<Stmt>, f: Faults): Outcome
    decreases |stmts|
  {
    if stmts == [] then Outcome(t, true) else
      var o := Exec(t, stmts[0], f(stmts[0]));
      if o.ok then Chain(o.tables, stmts[1..], f) else o
  }

  function RecoverFrom(t: Tables, staged: seq<Name>, f: Faults): Outcome
    decreases |staged|
  {
    if staged == [] then Outcome(t, true)
    else if !f(CountStaged(staged[0])).Works? then Outcome(t, false)
    else if staged[0] !in t then RecoverFrom(t, staged[1..], f)
    else Exec(t, Recover(staged[0]), f(Recover(staged[0])))
  }

  function RecoverInterrupted(t: Tables, f: Faults): Outcome {
    if !f(CountLive).Works? then Outcome(t, false)
    else if Live in t then Outcome(t, true)
    else RecoverFrom(t, [V2, Old], f)
  }

  function Swap(t: Tables, f: Faults): Outcome {
    var e := Exec(t, Exchange, f(Exchange));
    if e.ok then Chain(e.tables, [DropV2After], f)
    else if f(Exchange).Dies? then e
    else Chain(e.tables, [RenameLive, RenameV2, DropOld], f)
  }

  function MigrateWindows(t: Tables, f: Faults): Outcome {
    if !f(HasColumn).Works? then Outcome(t, false)
    else if Live in t && t[Live].clock then Outcome(t, true)
    else
      var c := Chain(t, [DropV2Before, CreateV2, Copy], f);
      if c.ok then Swap(c.tables, f) else c
  }

  function Startup(t: Tables, f: Faults): Outcome {
    var r := RecoverInterrupted(t, f);
    if !r.ok then r else
      var c := Exec(r.tables, CreateLive, f(CreateLive));
      if !c.ok then c else MigrateWindows(c.tables, f)
  }

  /** The server's connection to the database, and its startup as it runs. */
  class ClickHouse {
    var tables: Tables

    constructor (tables: Tables)
      ensures this.tables == tables
    {
      this.tables := tables;
    }

    method Execute(s: Stmt, f: Fault) returns (ok: bool)
      modifies this
      ensures Outcome(tables, ok) == Exec(old(tables), s, f)
    {
      var o := Exec(tables, s, f);
      tables := o.tables;
      ok := o.ok;
    }

    method RecoverInterruptedMigration(f: Faults) returns (ok: bool)
      modifies this
      ensures Outcome(tables, ok) == RecoverInterrupted(old(tables), f)
    {
      if !f(CountLive).Works? { return false; }
      if Live in tables { return true; }
      var staged := [V2, Old];
      for i := 0 to |staged|
        invariant tables == old(tables)
        invariant RecoverFrom(tables, staged, f) == RecoverFrom(tables, staged[i..], f)
      {
        if !f(CountStaged(staged[i])).Works? { return false; }
        if staged[i] in tables {
          ok := Execute(Recover(staged[i]), f(Recover(staged[i])));
          return ok;
        }
      }
      return true;
    }

    method MigrateWindowsTable(f: Faults) returns (ok: bool)
      modifies this
      ensures Outcome(tables, ok) == MigrateWindows(old(tables), f)
    {
      if !f(HasColumn).Works? { return false; }
      if Live in tables && tables[Live].clock { return true; }
      ok := ExecuteAll([DropV2Before, CreateV2, Copy], f);
      if !ok { return false; }
      ok := Execute(Exchange, f(Exchange));
      if !ok && !f(Exchange).Dies? {
        ok := ExecuteAll([RenameLive, RenameV2, DropOld], f);
      } else if ok {
        ok := ExecuteAll([DropV2After], f);
      }
    }

    method ExecuteAll(stmts: seq<Stmt>, f: Faults) returns (ok: bool)
      modifies this
      ensures Outcome(tables, ok) == Chain(old(tables), stmts, f)
    {
      for i := 0 to |stmts|
        invariant Chain(old(tables), stmts, f) == Chain(tables, stmts[i..], f)
      {
        ok := Execute(stmts[i], f(stmts[i]));
        if !ok { return false; }
      }
      return true;
    }

    method New(f: Faults) returns (ok: bool)
      modifies this
      ensures Outcome(tables, ok) == Startup(old(tables), f)
    {
      ok := RecoverInterruptedMigration(f);
      if !ok { return; }
      ok := Execute(CreateLive, f(CreateLive));
      if !ok { return; }
      ok := MigrateWindowsTable(f);
    }
  }

  // ----- no row is ever lost -----

  /** The table that holds the data: the live one, or the one recovery would put in its place. */
  function Home(t: Tables): Name {
    if Live in t then Live else if V2 in t then V2 else Old
  }

  function Content(t: Tables): set<Row> { if Home(t) in t then t[Home(t)].rows else {} }

  predicate Copied(t: Tables) { Live in t && V2 in t && t[V2].rows == t[Live].rows && !t[Live].clock && t[V2].clock }

  lemma NoTables(t: Tables)
    requires Live !in t && V2 !in t && Old !in t
    ensures t == map[]
  {
    forall n: Name ensures n !in t {
      match n
      case Live =>
      case V2 =>
      case Old =>
    }
  }

  lemma RecoverKeepsContent(t: Tables, f: Faults)
    ensures var o := RecoverInterrupted(t, f);
      Content(o.tables) == Content(t) && (o.ok ==> Live in o.tables || o.tables == t == map[])
  {
    assert [V2, Old][1..] == [Old] && [Old][1..] == [];
    if Live !in t && V2 !in t && Old !in t {
      NoTables(t);
    }
  }

  lemma PrepareKeepsContent(t: Tables, f: Faults)
    requires Live in t && !t[Live].clock
    ensures var o := Chain(t, [DropV2Before, CreateV2, Copy], f);
      Live in o.tables && o.tables[Live] == t[Live] && (o.ok ==> Copied(o.tables)) && (Old in o.tables <==> Old in t)
  {
    var t1 := Exec(t, DropV2Before, f(DropV2Before));
    assert [DropV2Before, CreateV2, Copy][1..] == [CreateV2, Copy] && [CreateV2, Copy][1..] == [Copy] && [Copy][1..] == [];
    var t2 := Exec(t1.tables, CreateV2, f(CreateV2));
    assert t1.ok && t2.ok ==> t2.tables[V2].rows == {};
  }

  lemma RenamesKeepContent(t: Tables, f: Faults)
    requires Live in t && V2 in t && t[V2].rows == t[Live].rows
    ensures var o := Chain(t, [RenameLive, RenameV2, DropOld], f);
      Content(o.tables) == Content(t) && (Live in o.tables || V2 in o.tables) &&
      (o.ok ==> Live in o.tables && o.tables[Live].clock == t[V2].clock && Old !in t)
  {
    assert [RenameLive, RenameV2, DropOld][1..] == [RenameV2, DropOld] && [RenameV2, DropOld][1..] == [DropOld] && [DropOld][1..] == [];
  }

  lemma SwapKeepsContent(t: Tables, f: Faults)
    requires Copied(t)
    ensures var o := Swap(t, f);
      Content(o.tables) == Content(t) && (Live in o.tables || V2 in o.tables) &&
      (o.ok ==> Live in o.tables && (o.tables[Live].clock <==> !f(Exchange).Unreported?))
  {
    var e := Exec(t, Exchange, f(Exchange));
    assert [DropV2After][1..] == [];
    if !e.ok { RenamesKeepContent(e.tables, f); }
  }

  /** Whatever tables a startup finds and wherever it fails, the rows that count stay the same. */
  lemma StartupKeepsRows(t: Tables, f: Faults)
    ensures Content(Startup(t, f).tables) == Content(t)
    ensures Live in t || V2 in t ==> Live in Startup(t, f).tables || V2 in Startup(t, f).tables
  {
    RecoverKeepsContent(t, f);
    var r := RecoverInterrupted(t, f);
    if r.ok {
      var c := Exec(r.tables, CreateLive, f(CreateLive));
      if c.ok && !c.tables[Live].clock {
        PrepareKeepsContent(c.tables, f);
        var p := Chain(c.tables, [DropV2Before, CreateV2, Copy], f);
        if p.ok { SwapKeepsContent(p.tables, f); }
      }
    }
  }

  /** Does the table that startup makes live still lack the column? */
  predicate Outdated(t: Tables) { Home(t) in t && !t[Home(t)].clock }

  /** A startup that completes leaves a live table with every row. It has the `updated_at` column,
      except when a rebuild was due and the EXCHANGE took effect although it reported an error:
      the fallback then swaps the old table back in. */
  lemma CompletedStartup(t: Tables, f: Faults)
    requires Startup(t, f).ok
    ensures var u := Startup(t, f).tables;
      Live in u && u[Live].rows == Content(t) &&
      (u[Live].clock <==> !(Outdated(t) && f(Exchange).Unreported?))
  {
    LiveAfterRecovery(t, f);
    var c := Exec(RecoverInterrupted(t, f).tables, CreateLive, f(CreateLive));
    if !c.tables[Live].clock { RebuildCompletes(c.tables, f); }
  }

  lemma LiveAfterRecovery(t: Tables, f: Faults)
    requires RecoverInterrupted(t, f).ok && Exec(RecoverInterrupted(t, f).tables, CreateLive, f(CreateLive)).ok
    ensures var u := Exec(RecoverInterrupted(t, f).tables, CreateLive, f(CreateLive)).tables;
      Live in u && u[Live].rows == Content(t) && (u[Live].clock <==> !Outdated(t))
  {
    RecoveredHome(t, f);
  }

  lemma RebuildCompletes(t: Tables, f: Faults)
    requires Live in t && !t[Live].clock && MigrateWindows(t, f).ok
    ensures var u := MigrateWindows(t, f).tables;
      Live in u && u[Live].rows == t[Live].rows && (u[Live].clock <==> !f(Exchange).Unreported?)
  {
    PrepareKeepsContent(t, f);
    SwapKeepsContent(Chain(t, [DropV2Before, CreateV2, Copy], f).tables, f);
  }

  /** Which tables a completed startup leaves. A rebuild drops what it staged; a staged or an old table
      that was there beside the live one stays as it was, but for the staged one when a rebuild was
      due. */
  lemma CompletedStartupTables(t: Tables, f: Faults)
    requires Startup(t, f).ok
    ensures var u := Startup(t, f).tables;
      (V2 in u <==> Live in t && t[Live].clock && V2 in t) && (V2 in u ==> u[V2] == t[V2]) &&
      (Old in u <==> Old in t && (Live in t || V2 in t)) && (Old in u ==> u[Old] == t[Old])
  {
    var r := RecoverInterrupted(t, f);
    RecoverLeaves(t, f);
    var c := Exec(r.tables, CreateLive, f(CreateLive));
    if !c.tables[Live].clock {
      PrepareKeepsContent(c.tables, f);
      PrepareLeavesOld(c.tables, f);
      SwapLeaves(Chain(c.tables, [DropV2Before, CreateV2, Copy], f).tables, f);
    }
  }

  lemma RecoverLeaves(t: Tables, f: Faults)
    requires RecoverInterrupted(t, f).ok
    ensures var u := RecoverInterrupted(t, f).tables;
      (V2 in u <==> Live in t && V2 in t) && (V2 in u ==> u[V2] == t[V2]) && (Old in u <==> Old in t && (Live in t || V2 in t)) &&
      (Old in u ==> u[Old] == t[Old]) && (Live in t ==> u == t)
  {
    assert [V2, Old][1..] == [Old] && [Old][1..] == [];
  }

  lemma PrepareLeavesOld(t: Tables, f: Faults)
    ensures var u := Chain(t, [DropV2Before, CreateV2, Copy], f).tables; (Old in u <==> Old in t) && (Old in u ==> u[Old] == t[Old])
  {
    assert [DropV2Before, CreateV2, Copy][1..] == [CreateV2, Copy] && [CreateV2, Copy][1..] == [Copy] && [Copy][1..] == [];
  }

  lemma SwapLeaves(t: Tables, f: Faults)
    requires Copied(t) && Swap(t, f).ok
    ensures var u := Swap(t, f).tables; V2 !in u && (Old in u <==> Old in t) && (Old in u ==> u[Old] == t[Old])
  {
    assert [RenameLive, RenameV2, DropOld][1..] == [RenameV2, DropOld] && [RenameV2, DropOld][1..] == [DropOld] && [DropOld][1..] == [];
    assert [DropV2After][1..] == [];
  }

  /** A startup that finds the column in place changes nothing, whatever fails. */
  lemma RebuiltIsFinal(t: Tables, f: Faults)
    requires Live in t && t[Live].clock
    ensures Startup(t, f).tables == t
  {
    assert RecoverInterrupted(t, f).tables == t;
    assert Exec(t, CreateLive, f(CreateLive)).tables == t;
  }

  /** The staged table that stays: if the process dies before the last statement of a rebuild, no
      later startup removes the copy of the data in the outdated form. */
  lemma {:induction false} StagedTableStays(rows: set<Row>, f: Faults, later: seq<Faults>)
    requires (forall s :: s != DropV2After ==> f(s).Works?) && f(DropV2After).Dies? && !f(DropV2After).effect
    ensures var u := Restarts(map[Live := Table(rows, false)], [f] + later);
      Live in u && u[Live] == Table(rows, true) && V2 in u && u[V2] == Table(rows, false)
  {
    var t: Tables := map[Live := Table(rows, false)];
    if later == [] {
      StagedOnce(t, f);
      RestartsSnoc(t, [], f);
      assert [] + [f] == [f] + later;
    } else {
      var before, last := [f] + later[..|later| - 1], later[|later| - 1];
      StagedTableStays(rows, f, later[..|later| - 1]);
      RestartsSnoc(t, before, last);
      RebuiltIsFinal(Restarts(t, before), last);
      assert before + [last] == [f] + later;
    }
  }

  lemma RestartsSnoc(t: Tables, runs: seq<Faults>, f: Faults)
    ensures Restarts(t, runs + [f]) == Startup(Restarts(t, runs), f).tables
    ensures Restarts(t, []) == t
  {
    assert (runs + [f])[..|runs|] == runs;
  }

  lemma StagedOnce(t: Tables, f: Faults)
    requires t.Keys == {Live} && !t[Live].clock
    requires (forall s :: s != DropV2After ==> f(s).Works?) && f(DropV2After).Dies? && !f(DropV2After).effect
    ensures var u := Startup(t, f).tables;
      Live in u && u[Live] == Table(t[Live].rows, true) && V2 in u && u[V2] == t[Live]
  {
    PrepareWorks(t, f);
    PrepareKeepsContent(t, f);
    DiesBehind(Chain(t, [DropV2Before, CreateV2, Copy], f).tables, f);
    assert RecoverInterrupted(t, f) == Outcome(t, true);
    assert Exec(t, CreateLive, f(CreateLive)) == Outcome(t, true);
  }

  lemma DiesBehind(t: Tables, f: Faults)
    requires Copied(t) && f(Exchange).Works? && f(DropV2After).Dies? && !f(DropV2After).effect
    ensures var u := Swap(t, f).tables; Live in u && u[Live] == t[V2] && V2 in u && u[V2] == t[Live]
  {
  }

  /** The failing startup: on a deployment with an outdated table, an EXCHANGE whose answer is lost,
      everything else working, ends with that table live again. */
  lemma LostAnswerSwapsBack(rows: set<Row>, f: Faults)
    requires f(Exchange) == Unreported && forall s :: s != Exchange ==> f(s).Works?
    ensures var o := Startup(map[Live := Table(rows, false)], f);
      o.ok && Live in o.tables && o.tables[Live] == Table(rows, false)
  {
    var t: Tables := map[Live := Table(rows, false)];
    PrepareWorks(t, f);
    PrepareKeepsContent(t, f);
    SwapBack(Chain(t, [DropV2Before, CreateV2, Copy], f).tables, f);
    assert RecoverInterrupted(t, f) == Outcome(t, true);
    assert Exec(t, CreateLive, f(CreateLive)) == Outcome(t, true);
  }

  lemma SwapBack(t: Tables, f: Faults)
    requires Copied(t) && Old !in t && f(Exchange) == Unreported && forall s :: s != Exchange ==> f(s).Works?
    ensures Swap(t, f).ok && Live in Swap(t, f).tables && Swap(t, f).tables[Live] == t[Live]
  {
    assert [RenameLive, RenameV2, DropOld][1..] == [RenameV2, DropOld] && [RenameV2, DropOld][1..] == [DropOld] && [DropOld][1..] == [];
  }

  lemma RecoveredHome(t: Tables, f: Faults)
    requires RecoverInterrupted(t, f).ok
    ensures var u := RecoverInterrupted(t, f).tables;
      (t == map[] && u == t) || (Live in u && Home(t) in t && u[Live] == t[Home(t)] && (Old in u <==> Old in t && Home(t) != Old))
  {
    assert [V2, Old][1..] == [Old] && [Old][1..] == [];
    if Live !in t && V2 !in t && Old !in t {
      NoTables(t);
    }
  }

  // ----- any number of restarts -----

  /** The tables after startups with these faults. */
  function Restarts(t: Tables, runs: seq<Faults>): Tables {
    if runs == [] then t else Startup(Restarts(t, runs[..|runs| - 1]), runs[|runs| - 1]).tables
  }

  /** What a deployment can look like before the upgrade: nothing, or one windows table. */
  predicate Deployed(t: Tables) { t == map[] || t.Keys == {Live} }

  /** At every point of every sequence of interrupted startups the rows are all in the live table,
      or in `toki_windows_v2` while there is no live one. */
  lemma {:induction false} NoRowIsLost(t: Tables, runs: seq<Faults>)
    requires Deployed(t)
    ensures var u := Restarts(t, runs);
      Content(u) == Content(t) && (t != map[] ==> Live in u || V2 in u) &&
      (Live in u ==> u[Live].rows == Content(t)) && (Live !in u && V2 in u ==> u[V2].rows == Content(t))
  {
    if runs == [] {
    } else {
      NoRowIsLost(t, runs[..|runs| - 1]);
      StartupKeepsRows(Restarts(t, runs[..|runs| - 1]), runs[|runs| - 1]);
    }
  }

  // ----- the rebuild can always be finished -----

  /** `toki_windows_old` exists only once the rebuilt table is in its place. */
  predicate OldIsSpare(t: Tables) {
    (Old in t ==> Home(t) != Old && !Outdated(t)) && (Live !in t && V2 in t ==> !Outdated(t))
  }

  lemma RenamesKeepOldSpare(t: Tables, f: Faults)
    requires Copied(t) && Old !in t
    ensures OldIsSpare(Chain(t, [RenameLive, RenameV2, DropOld], f).tables)
  {
  }

  lemma SwapKeepsOldSpare(t: Tables, f: Faults)
    requires Copied(t) && Old !in t && !f(Exchange).Unreported?
    ensures OldIsSpare(Swap(t, f).tables)
  {
    var e := Exec(t, Exchange, f(Exchange));
    assert [DropV2After][1..] == [];
    if !e.ok && !f(Exchange).Dies? { RenamesKeepOldSpare(t, f); }
  }

  lemma StartupKeepsOldSpare(t: Tables, f: Faults)
    requires OldIsSpare(t) && !f(Exchange).Unreported?
    ensures OldIsSpare(Startup(t, f).tables)
  {
    var r := RecoverInterrupted(t, f);
    RecoverKeepsContent(t, f);
    RecoverKeepsOldSpare(t, f);
    if r.ok {
      var c := Exec(r.tables, CreateLive, f(CreateLive));
      if c.ok && !c.tables[Live].clock {
        PrepareKeepsContent(c.tables, f);
        var p := Chain(c.tables, [DropV2Before, CreateV2, Copy], f);
        if p.ok { SwapKeepsOldSpare(p.tables, f); }
      }
    }
  }

  lemma RecoverKeepsOldSpare(t: Tables, f: Faults)
    requires OldIsSpare(t)
    ensures OldIsSpare(RecoverInterrupted(t, f).tables)
  {
  }

  lemma {:induction false} RestartsKeepOldSpare(t: Tables, runs: seq<Faults>)
    requires Deployed(t) && forall i :: 0 <= i < |runs| ==> !runs[i](Exchange).Unreported?
    ensures OldIsSpare(Restarts(t, runs))
  {
    if runs == [] {
    } else {
      var n := |runs| - 1;
      assert forall i :: 0 <= i < n ==> runs[..n][i] == runs[i];
      RestartsKeepOldSpare(t, runs[..n]);
      StartupKeepsOldSpare(Restarts(t, runs[..n]), runs[n]);
    }
  }

  /** Every statement works, though the database engine may not know EXCHANGE. */
  ghost predicate Healthy(f: Faults) {
    (forall s :: s != Exchange ==> f(s).Works?) && (f(Exchange).Works? || f(Exchange).Refused?)
  }

  /** A healthy startup completes, unless the rebuild is due, EXCHANGE is unavailable, and a table
      `toki_windows_old` stands in the way of the rename. */
  lemma HealthyStartup(t: Tables, f: Faults)
    requires Healthy(f)
    ensures Startup(t, f).ok <==> !(Outdated(t) && Old in t && Home(t) != Old && f(Exchange).Refused?)
  {
    var r := RecoverInterrupted(t, f);
    RecoverWorks(t, f);
    RecoveredHome(t, f);
    var c := Exec(r.tables, CreateLive, f(CreateLive));
    if !c.tables[Live].clock {
      PrepareWorks(c.tables, f);
      PrepareKeepsContent(c.tables, f);
      SwapWorks(Chain(c.tables, [DropV2Before, CreateV2, Copy], f).tables, f);
    }
  }

  lemma RecoverWorks(t: Tables, f: Faults)
    requires Healthy(f)
    ensures RecoverInterrupted(t, f).ok
  {
  }

  lemma PrepareWorks(t: Tables, f: Faults)
    requires Live in t && f(DropV2Before).Works? && f(CreateV2).Works? && f(Copy).Works?
    ensures Chain(t, [DropV2Before, CreateV2, Copy], f).ok
  {
  }

  lemma SwapWorks(t: Tables, f: Faults)
    requires Healthy(f) && Copied(t)
    ensures Swap(t, f).ok <==> !(Old in t && f(Exchange).Refused?)
  {
    assert [RenameLive, RenameV2, DropOld][1..] == [RenameV2, DropOld] && [RenameV2, DropOld][1..] == [DropOld] && [DropOld][1..] == [];
    assert [DropV2After][1..] == [];
  }

  /** However often it was interrupted, the first undisturbed startup finishes the rebuild, if the
      engine knows EXCHANGE or no EXCHANGE went unreported before. */
  lemma RebuildFinishes(t: Tables, runs: seq<Faults>, f: Faults)
    requires Deployed(t) && Healthy(f)
    requires f(Exchange).Works? || forall i :: 0 <= i < |runs| ==> !runs[i](Exchange).Unreported?
    ensures var o := Startup(Restarts(t, runs), f);
      o.ok && Live in o.tables && o.tables[Live] == Table(Content(t), true)
  {
    NoRowIsLost(t, runs);
    if !f(Exchange).Works? { RestartsKeepOldSpare(t, runs); }
    HealthyStartup(Restarts(t, runs), f);
    CompletedStartup(Restarts(t, runs), f);
  }
}
