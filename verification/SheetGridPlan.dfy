/** Growing the grids of a spreadsheet before a flush, under the cell cap. */
module SheetGridPlan {
  import opened Options
  import opened Sequences
  import opened SheetGrid

  const MAX_CELLS_PER_SPREADSHEET: nat := 10_000_000
  const EXPAND_ROW_BUFFER: nat := 1000

  /** The operations for one stream; every stream has its own sheet. */
  datatype Ops = Ops(sheetId: int, updates: seq<Update>, appends: seq<Row>, existingRowCount: nat)

  datatype Grid = Grid(rowCount: nat, columnCount: nat)

  datatype GridInfo = GridInfo(sheetId: int, grid: Grid)

  datatype Expansion = AppendRows(sheetId: int, length: nat) | AppendColumns(sheetId: int, length: nat)

  datatype Plan = Refused | Planned(expansions: seq<Expansion>)

  function Max(a: nat, b: nat): nat {
    if a < b then b else a
  }

  function MaxUpdateRow(us: seq<Update>): (m: nat)
    ensures forall i :: 0 <= i < |us| ==> us[i].rowNumber <= m
  {
    if us == [] then 0 else Max(MaxUpdateRow(us[..|us| - 1]), us[|us| - 1].rowNumber)
  }

  function MaxUpdateCol(us: seq<Update>): (m: nat)
    ensures forall i :: 0 <= i < |us| ==> |us[i].values| <= m
  {
    if us == [] then 0 else Max(MaxUpdateCol(us[..|us| - 1]), |us[|us| - 1].values|)
  }

  function MaxWidth(rows: seq<Row>): (m: nat)
    ensures forall i :: 0 <= i < |rows| ==> |rows[i]| <= m
  {
    if rows == [] then 0 else Max(MaxWidth(rows[..|rows| - 1]), |rows[|rows| - 1]|)
  }

  function NeededRows(ops: Ops): nat {
    Max(MaxUpdateRow(ops.updates), if ops.appends != [] then ops.existingRowCount + |ops.appends| else 0)
  }

  function NeededCols(ops: Ops): nat {
    Max(MaxUpdateCol(ops.updates), MaxWidth(ops.appends))
  }

  /** The grid that one stream's operations ask for. */
  function Fit(g: Grid, ops: Ops): Grid {
    Grid(if NeededRows(ops) > g.rowCount then NeededRows(ops) + EXPAND_ROW_BUFFER else g.rowCount,
         Max(NeededCols(ops), g.columnCount))
  }

  /** Every cell that the stream's pastes touch lies inside the grid. */
  ghost predicate Inside(ops: Ops, g: Grid) {
    && (forall i :: 0 <= i < |ops.updates| ==>
          ops.updates[i].rowNumber <= g.rowCount && |ops.updates[i].values| <= g.columnCount)
    && (forall i :: 0 <= i < |ops.appends| ==>
          ops.existingRowCount + 1 + i <= g.rowCount && |ops.appends[i]| <= g.columnCount)
  }

  lemma FitHolds(g: Grid, ops: Ops)
    ensures Inside(ops, Fit(g, ops))
    ensures g.rowCount <= Fit(g, ops).rowCount && g.columnCount <= Fit(g, ops).columnCount
  {
  }

  // ---- That it asks for no more ----

  /** A row that some update writes, or the last one of the appends. */
  ghost predicate TouchesRow(ops: Ops, r: nat) {
    || (exists i :: 0 <= i < |ops.updates| && ops.updates[i].rowNumber == r)
    || (ops.appends != [] && r == ops.existingRowCount + |ops.appends|)
  }

  /** The width of some payload row. */
  ghost predicate HasWidth(ops: Ops, w: nat) {
    || (exists i :: 0 <= i < |ops.updates| && |ops.updates[i].values| == w)
    || (exists i :: 0 <= i < |ops.appends| && |ops.appends[i]| == w)
  }

  lemma {:induction false} UpdateRowIsTouched(us: seq<Update>)
    ensures MaxUpdateRow(us) == 0 || exists i :: 0 <= i < |us| && us[i].rowNumber == MaxUpdateRow(us)
  {
    if us != [] {
      UpdateRowIsTouched(us[..|us| - 1]);
    }
  }

  lemma {:induction false} UpdateWidthIsReached(us: seq<Update>)
    ensures MaxUpdateCol(us) == 0 || exists i :: 0 <= i < |us| && |us[i].values| == MaxUpdateCol(us)
  {
    if us != [] {
      UpdateWidthIsReached(us[..|us| - 1]);
    }
  }

  lemma {:induction false} WidthIsReached(rows: seq<Row>)
    ensures MaxWidth(rows) == 0 || exists i :: 0 <= i < |rows| && |rows[i]| == MaxWidth(rows)
  {
    if rows != [] {
      WidthIsReached(rows[..|rows| - 1]);
    }
  }

  /**
   Columns grow just to the widest payload row, and rows only when a touched one is missing, to the last touched row
   and the buffer.
   */
  lemma FitIsExact(g: Grid, ops: Ops)
    ensures var f := Fit(g, ops);
      && (f.columnCount == g.columnCount || (f.columnCount > g.columnCount && HasWidth(ops, f.columnCount)))
      && ((forall r: nat :: TouchesRow(ops, r) ==> r <= g.rowCount) ==> f.rowCount == g.rowCount)
      && (f.rowCount != g.rowCount ==>
           f.rowCount > g.rowCount + EXPAND_ROW_BUFFER && TouchesRow(ops, f.rowCount - EXPAND_ROW_BUFFER))
  {
    UpdateRowIsTouched(ops.updates);
    UpdateWidthIsReached(ops.updates);
    WidthIsReached(ops.appends);
    if NeededRows(ops) > g.rowCount {
      assert TouchesRow(ops, NeededRows(ops));
    }
  }

  // ---- What the expansion requests do ----

  function Expand(g: GridInfo, e: Expansion): GridInfo {
    if e.sheetId != g.sheetId then g
    else
      match e
      case AppendRows(_, n) => g.(grid := Grid(g.grid.rowCount + n, g.grid.columnCount))
      case AppendColumns(_, n) => g.(grid := Grid(g.grid.rowCount, g.grid.columnCount + n))
  }

  function ExpandAll(g: GridInfo, es: seq<Expansion>): GridInfo {
    if es == [] then g else Expand(ExpandAll(g, es[..|es| - 1]), es[|es| - 1])
  }

  lemma ExpandAllSnoc(g: GridInfo, es: seq<Expansion>, e: Expansion)
    ensures ExpandAll(g, es + [e]) == Expand(ExpandAll(g, es), e)
  {
    assert (es + [e])[..|es|] == es;
  }

  lemma {:induction false} ExpandKeepsId(g: GridInfo, es: seq<Expansion>)
    ensures ExpandAll(g, es).sheetId == g.sheetId
  {
    if es != [] {
      ExpandKeepsId(g, es[..|es| - 1]);
    }
  }

  predicate DistinctSheets(ops: seq<Ops>) {
    forall i, j :: 0 <= i < j < |ops| ==> ops[i].sheetId != ops[j].sheetId
  }

  predicate DistinctGrids(grids: seq<GridInfo>) {
    forall i, j :: 0 <= i < j < |grids| ==> grids[i].sheetId != grids[j].sheetId
  }

  /** The projected grid: grown for the stream that writes to it, if any. */
  function Projected(g: GridInfo, ops: seq<Ops>): Grid {
    if ops == [] then g.grid
    else if ops[|ops| - 1].sheetId == g.sheetId then Fit(g.grid, ops[|ops| - 1])
    else Projected(g, ops[..|ops| - 1])
  }

  function FindGrid(grids: seq<GridInfo>, sheetId: int): (r: Option<Grid>)
    ensures r.Some? ==> exists i :: 0 <= i < |grids| && grids[i] == GridInfo(sheetId, r.value)
    ensures r.None? ==> forall i :: 0 <= i < |grids| ==> grids[i].sheetId != sheetId
  {
    if grids == [] then None
    else if grids[|grids| - 1].sheetId == sheetId then Some(grids[|grids| - 1].grid)
    else FindGrid(grids[..|grids| - 1], sheetId)
  }

  function Cells(g: Grid): nat {
    g.rowCount * g.columnCount
  }

  function TotalCells(grids: seq<GridInfo>): nat {
    if grids == [] then 0 else TotalCells(grids[..|grids| - 1]) + Cells(grids[|grids| - 1].grid)
  }

  function ProjectedCells(grids: seq<GridInfo>, ops: seq<Ops>): nat {
    if grids == [] then 0
    else ProjectedCells(grids[..|grids| - 1], ops) + Cells(Projected(grids[|grids| - 1], ops))
  }

  function After(grids: seq<GridInfo>, es: seq<Expansion>): (r: seq<GridInfo>)
    ensures |r| == |grids| && forall i :: 0 <= i < |r| ==> r[i] == ExpandAll(grids[i], es)
  {
    seq(|grids|, i requires 0 <= i < |grids| => ExpandAll(grids[i], es))
  }

  function PayloadCells(rows: seq<Row>): nat {
    if rows == [] then 0 else PayloadCells(rows[..|rows| - 1]) + |rows[|rows| - 1]|
  }

  function UpdateCells(us: seq<Update>): nat {
    if us == [] then 0 else UpdateCells(us[..|us| - 1]) + |us[|us| - 1].values|
  }

  function AllAppendCells(ops: seq<Ops>): nat {
    if ops == [] then 0 else AllAppendCells(ops[..|ops| - 1]) + PayloadCells(ops[|ops| - 1].appends)
  }

  function AllUpdateCells(ops: seq<Ops>): nat {
    if ops == [] then 0 else AllUpdateCells(ops[..|ops| - 1]) + UpdateCells(ops[|ops| - 1].updates)
  }

  /** The payload is counted cell by cell. */
  lemma {:induction false} PayloadIsCounted(rows: seq<Row>)
    ensures PayloadCells(rows) == |Concat(rows)|
  {
    if rows != [] {
      PayloadIsCounted(rows[..|rows| - 1]);
    }
  }

  function ValuesOf(us: seq<Update>): (rows: seq<Row>)
    ensures |rows| == |us| && forall i :: 0 <= i < |rows| ==> rows[i] == us[i].values
  {
    seq(|us|, i requires 0 <= i < |us| => us[i].values)
  }

  lemma {:induction false} UpdatesAreCounted(us: seq<Update>)
    ensures UpdateCells(us) == |Concat(ValuesOf(us))|
  {
    if us != [] {
      UpdatesAreCounted(us[..|us| - 1]);
      assert ValuesOf(us)[..|us| - 1] == ValuesOf(us[..|us| - 1]);
    }
  }

  ghost predicate HasData(ops: seq<Ops>) {
    exists i :: 0 <= i < |ops| && (ops[i].updates != [] || ops[i].appends != [])
  }

  // ---- The plan ----

  /** The requests of one stream, when its grid is known. */
  function Requests(g: Grid, ops: Ops): seq<Expansion> {
    RowRequests(g, ops) + ColumnRequests(g, ops)
  }

  function RowRequests(g: Grid, ops: Ops): seq<Expansion> {
    if NeededRows(ops) > g.rowCount
    then [AppendRows(ops.sheetId, NeededRows(ops) - g.rowCount + EXPAND_ROW_BUFFER)] else []
  }

  function ColumnRequests(g: Grid, ops: Ops): seq<Expansion> {
    if NeededCols(ops) > g.columnCount
    then [AppendColumns(ops.sheetId, NeededCols(ops) - g.columnCount)] else []
  }

  /** The requests bring each grid exactly to its projected size. */
  ghost predicate Exact(grids: seq<GridInfo>, ops: seq<Ops>, es: seq<Expansion>) {
    forall i :: 0 <= i < |grids| ==> ExpandAll(grids[i], es) == GridInfo(grids[i].sheetId, Projected(grids[i], ops))
  }

  lemma {:induction false} ExpandOthers(g: GridInfo, es: seq<Expansion>, more: seq<Expansion>)
    requires forall i :: 0 <= i < |more| ==> more[i].sheetId != g.sheetId
    ensures ExpandAll(g, es + more) == ExpandAll(g, es)
    decreases |more|
  {
    if more == [] {
      assert es + more == es;
    } else {
      var front, last := more[..|more| - 1], more[|more| - 1];
      ExpandOthers(g, es, front);
      ExpandAllSnoc(g, es + front, last);
      ExpandKeepsId(g, es + front);
      assert es + more == (es + front) + [last];
    }
  }

  lemma ExpandOwn(g: GridInfo, es: seq<Expansion>, ops: Ops)
    requires ops.sheetId == g.sheetId && ExpandAll(g, es) == g
    ensures ExpandAll(g, es + Requests(g.grid, ops)) == GridInfo(g.sheetId, Fit(g.grid, ops))
  {
    hide ExpandAll, RowRequests, ColumnRequests, NeededRows, NeededCols;
    var rows, cols := RowRequests(g.grid, ops), ColumnRequests(g.grid, ops);
    ExpandRows(g, es, ops);
    ExpandColumns(g, es + rows, ops);
    Associative(es, rows, cols);
  }

  lemma ExpandRows(g: GridInfo, es: seq<Expansion>, ops: Ops)
    requires ops.sheetId == g.sheetId && ExpandAll(g, es) == g
    ensures ExpandAll(g, es + RowRequests(g.grid, ops)) ==
              GridInfo(g.sheetId, Grid(Fit(g.grid, ops).rowCount, g.grid.columnCount))
  {
    hide NeededRows, NeededCols;
    ExpandOneMore(g, es, RowRequests(g.grid, ops));
  }

  lemma ExpandColumns(g: GridInfo, es: seq<Expansion>, ops: Ops)
    requires ops.sheetId == g.sheetId && ExpandAll(g, es).sheetId == g.sheetId
    requires ExpandAll(g, es).grid.columnCount == g.grid.columnCount
    ensures ExpandAll(g, es + ColumnRequests(g.grid, ops)) ==
              GridInfo(g.sheetId, Grid(ExpandAll(g, es).grid.rowCount, Fit(g.grid, ops).columnCount))
  {
    hide NeededRows, NeededCols;
    ExpandOneMore(g, es, ColumnRequests(g.grid, ops));
  }

  lemma ExpandOneMore(g: GridInfo, es: seq<Expansion>, more: seq<Expansion>)
    requires |more| <= 1
    ensures ExpandAll(g, es + more) == if more == [] then ExpandAll(g, es) else Expand(ExpandAll(g, es), more[0])
  {
    hide ExpandAll;
    if more == [] {
      assert es + more == es;
    } else {
      assert more == [more[0]];
      ExpandAllSnoc(g, es, more[0]);
    }
  }

  lemma {:induction false} UntouchedBefore(g: GridInfo, ops: seq<Ops>)
    requires forall i :: 0 <= i < |ops| ==> ops[i].sheetId != g.sheetId
    ensures Projected(g, ops) == g.grid
  {
    if ops != [] {
      UntouchedBefore(g, ops[..|ops| - 1]);
    }
  }

  lemma ExactStep(grids: seq<GridInfo>, ops: seq<Ops>, es: seq<Expansion>, next: Ops)
    requires DistinctGrids(grids) && DistinctSheets(ops + [next]) && Exact(grids, ops, es)
    ensures Exact(grids, ops + [next], match FindGrid(grids, next.sheetId)
                                       case None => es
                                       case Some(g) => es + Requests(g, next))
  {
    var found := FindGrid(grids, next.sheetId);
    var es' := match found case None => es case Some(g) => es + Requests(g, next);
    assert (ops + [next])[..|ops|] == ops;
    forall i | 0 <= i < |grids|
      ensures ExpandAll(grids[i], es') == GridInfo(grids[i].sheetId, Projected(grids[i], ops + [next]))
    {
      ExactForOne(grids, ops, es, next, i);
    }
  }

  lemma ExactForOne(grids: seq<GridInfo>, ops: seq<Ops>, es: seq<Expansion>, next: Ops, i: nat)
    requires DistinctGrids(grids) && DistinctSheets(ops + [next]) && Exact(grids, ops, es) && i < |grids|
    ensures var es' := match FindGrid(grids, next.sheetId) case None => es case Some(g) => es + Requests(g, next);
            ExpandAll(grids[i], es') == GridInfo(grids[i].sheetId, Projected(grids[i], ops + [next]))
  {
    hide ExpandAll, Requests, Fit, Projected, FindGrid;
    var g, found := grids[i], FindGrid(grids, next.sheetId);
    ProjectedSnoc(g, ops, next);
    if next.sheetId == g.sheetId {
      NotBefore(ops, next);
      UntouchedBefore(g, ops);
      ExpandOwn(g, es, next);
    } else if found.Some? {
      RequestsFor(found.value, next);
      ExpandOthers(g, es, Requests(found.value, next));
    }
  }

  lemma ProjectedSnoc(g: GridInfo, ops: seq<Ops>, next: Ops)
    ensures Projected(g, ops + [next]) == if next.sheetId == g.sheetId then Fit(g.grid, next) else Projected(g, ops)
  {
    assert (ops + [next])[..|ops|] == ops;
  }

  lemma NotBefore(ops: seq<Ops>, next: Ops)
    requires DistinctSheets(ops + [next])
    ensures forall j :: 0 <= j < |ops| ==> ops[j].sheetId != next.sheetId
  {
    forall j | 0 <= j < |ops| ensures ops[j].sheetId != next.sheetId {
      assert (ops + [next])[j].sheetId != (ops + [next])[|ops|].sheetId;
    }
  }

  lemma RequestsFor(g: Grid, ops: Ops)
    ensures forall j :: 0 <= j < |Requests(g, ops)| ==> Requests(g, ops)[j].sheetId == ops.sheetId
  {
  }

  lemma {:induction false} TotalAfter(grids: seq<GridInfo>, ops: seq<Ops>, es: seq<Expansion>)
    requires Exact(grids, ops, es)
    ensures TotalCells(After(grids, es)) == ProjectedCells(grids, ops)
  {
    if grids != [] {
      var front := grids[..|grids| - 1];
      forall i | 0 <= i < |front| ensures ExpandAll(front[i], es) ==
          GridInfo(front[i].sheetId, Projected(front[i], ops)) {
        assert front[i] == grids[i];
      }
      TotalAfter(front, ops, es);
      assert After(grids, es)[..|grids| - 1] == After(front, es);
      assert After(grids, es)[|grids| - 1] == ExpandAll(grids[|grids| - 1], es);
    }
  }

  /** Grown grids by sheet, as recorded for the cap check; a sheet without an entry keeps its grid. */
  ghost predicate Recorded(grids: seq<GridInfo>, ops: seq<Ops>, projected: map<int, Grid>) {
    forall i :: 0 <= i < |grids| ==>
      (if grids[i].sheetId in projected then projected[grids[i].sheetId] else grids[i].grid) == Projected(grids[i], ops)
  }

  lemma RecordedStep(grids: seq<GridInfo>, ops: seq<Ops>, projected: map<int, Grid>, next: Ops)
    requires DistinctGrids(grids) && DistinctSheets(ops + [next]) && Recorded(grids, ops, projected)
    ensures Recorded(grids, ops + [next],
                     match FindGrid(grids, next.sheetId)
                     case None => projected
                     case Some(g) => if Requests(g, next) ==
                         [] then projected else projected[next.sheetId := Fit(g, next)])
  {
    assert (ops + [next])[..|ops|] == ops;
    var found := FindGrid(grids, next.sheetId);
    forall i | 0 <= i < |grids| && grids[i].sheetId == next.sheetId ensures Projected(grids[i], ops) == grids[i].grid {
      forall j | 0 <= j < |ops| ensures ops[j].sheetId != grids[i].sheetId {
        assert (ops + [next])[j].sheetId != (ops + [next])[|ops|].sheetId;
      }
      UntouchedBefore(grids[i], ops);
    }
  }

  lemma {:induction false} ProjectedIsFit(g: GridInfo, ops: seq<Ops>, i: nat)
    requires DistinctSheets(ops) && i < |ops| && ops[i].sheetId == g.sheetId
    ensures Projected(g, ops) == Fit(g.grid, ops[i])
  {
    if i < |ops| - 1 {
      ProjectedIsFit(g, ops[..|ops| - 1], i);
    }
  }

  /** When a plan is carried out, every paste fits and no grid shrinks. */
  lemma PlannedFits(grids: seq<GridInfo>, ops: seq<Ops>, es: seq<Expansion>, i: nat, j: nat)
    requires DistinctSheets(ops) && Exact(grids, ops, es)
    requires i < |ops| && j < |grids| && ops[i].sheetId == grids[j].sheetId
    ensures Inside(ops[i], After(grids, es)[j].grid)
  {
    ProjectedIsFit(grids[j], ops, i);
    FitHolds(grids[j].grid, ops[i]);
  }

  ghost predicate OverCap(grids: seq<GridInfo>, ops: seq<Ops>) {
    || AllUpdateCells(ops) + AllAppendCells(ops) > MAX_CELLS_PER_SPREADSHEET
    || (grids != [] && Max(TotalCells(grids) + AllAppendCells(ops), ProjectedCells(grids,
        ops)) > MAX_CELLS_PER_SPREADSHEET)
  }

  method PlanExpansions(ops: seq<Ops>, grids: seq<GridInfo>)
    returns (expansions: seq<Expansion>, projected: map<int, Grid>)
    requires DistinctSheets(ops) && DistinctGrids(grids)
    ensures Exact(grids, ops, expansions) && Recorded(grids, ops, projected)
  {
    hide Exact, Recorded, FindGrid, Requests, Fit;
    expansions, projected := [], map[];
    assert ops[..0] == [];
    NothingPlanned(grids);
    for i := 0 to |ops|
      invariant Exact(grids, ops[..i], expansions) && Recorded(grids, ops[..i], projected)
    {
      assert ops[..i + 1] == ops[..i] + [ops[i]];
      assert DistinctSheets(ops[..i] + [ops[i]]);
      ExactStep(grids, ops[..i], expansions, ops[i]);
      RecordedStep(grids, ops[..i], projected, ops[i]);
      var current := FindGrid(grids, ops[i].sheetId);
      if current.Some? {
        var requests := Requests(current.value, ops[i]);
        expansions := expansions + requests;
        if requests != [] {
          projected := projected[ops[i].sheetId := Fit(current.value, ops[i])];
        }
      }
    }
    assert ops[..|ops|] == ops;
  }

  lemma NothingPlanned(grids: seq<GridInfo>)
    ensures Exact(grids, [], []) && Recorded(grids, [], map[])
  {
  }

  method CountCells(ops: seq<Ops>) returns (updateCells: nat, appendCells: nat, hasData: bool)
    ensures updateCells == AllUpdateCells(ops) && appendCells == AllAppendCells(ops)
    ensures hasData == HasData(ops)
  {
    updateCells, appendCells, hasData := 0, 0, false;
    for i := 0 to |ops|
      invariant updateCells == AllUpdateCells(ops[..i]) && appendCells == AllAppendCells(ops[..i])
      invariant hasData <==> exists j :: 0 <= j < i && (ops[j].updates != [] || ops[j].appends != [])
    {
      assert ops[..i + 1][..i] == ops[..i];
      updateCells := updateCells + UpdateCells(ops[i].updates);
      appendCells := appendCells + PayloadCells(ops[i].appends);
      if ops[i].updates != [] || ops[i].appends != [] {
        hasData := true;
      }
    }
    assert ops[..|ops|] == ops;
  }

  method GridCells(grids: seq<GridInfo>, ghost ops: seq<Ops>, projected: map<int, Grid>)
    returns (current: nat, after: nat)
    requires Recorded(grids, ops, projected)
    ensures current == TotalCells(grids) && after == ProjectedCells(grids, ops)
  {
    hide Projected, Cells;
    current, after := 0, 0;
    for i := 0 to |grids|
      invariant current == TotalCells(grids[..i]) && after == ProjectedCells(grids[..i], ops)
    {
      assert grids[..i + 1][..i] == grids[..i];
      var info := grids[i];
      var p := if info.sheetId in projected then projected[info.sheetId] else info.grid;
      current := current + Cells(info.grid);
      after := after + Cells(p);
    }
    assert grids[..|grids|] == grids;
  }

  /**
   Plans the expansions of one flush, or refuses it.  A plan brings each known grid exactly to
   its projected size; all pastes then lie inside, and the spreadsheet stays within the cap.
   */
  method PlanGrid(ops: seq<Ops>, grids: seq<GridInfo>) returns (plan: Plan)
    requires DistinctSheets(ops) && DistinctGrids(grids)
    ensures plan.Refused? <==> HasData(ops) && OverCap(grids, ops)
    ensures plan.Planned? ==> Exact(grids, ops, plan.expansions)
    ensures plan.Planned? ==>
        forall i, j :: 0 <= i < |ops| && 0 <= j < |grids| && ops[i].sheetId == grids[j].sheetId ==>
              Inside(ops[i], After(grids, plan.expansions)[j].grid)
    ensures plan.Planned? && HasData(ops) && grids != [] ==>
              TotalCells(After(grids, plan.expansions)) <= MAX_CELLS_PER_SPREADSHEET
  {
    hide Exact, Recorded, Inside, After, ExpandAll, Projected, TotalCells, ProjectedCells, AllUpdateCells,
        AllAppendCells;
    hide HasData;
    var expansions, projected := PlanExpansions(ops, grids);
    var updateCells, appendCells, hasData := CountCells(ops);
    TotalAfter(grids, ops, expansions);
    AfterFits(grids, ops, expansions);
    plan := Planned(expansions);
    if hasData {
      if updateCells + appendCells > MAX_CELLS_PER_SPREADSHEET {
        plan := Refused;
      } else if |grids| > 0 {
        var current, after := GridCells(grids, ops, projected);
        if Max(current + appendCells, after) > MAX_CELLS_PER_SPREADSHEET {
          plan := Refused;
        }
      }
    }
  }

  lemma AfterFits(grids: seq<GridInfo>, ops: seq<Ops>, es: seq<Expansion>)
    requires DistinctSheets(ops) && Exact(grids, ops, es)
    ensures forall i, j :: 0 <= i < |ops| && 0 <= j < |grids| && ops[i].sheetId == grids[j].sheetId ==>
              Inside(ops[i], After(grids, es)[j].grid)
  {
    forall i, j | 0 <= i < |ops| && 0 <= j < |grids| && ops[i].sheetId == grids[j].sheetId
      ensures Inside(ops[i], After(grids, es)[j].grid)
    {
      PlannedFits(grids, ops, es, i, j);
    }
  }
}
