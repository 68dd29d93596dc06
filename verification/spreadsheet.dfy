/** The state of the spreadsheet component: the ordered list of sheets and the id of the active
    sheet, with every handler that changes them written as a pure transition from one state to the
    next. The component looks the active sheet up by id and asserts that it exists; `Valid` is the
    invariant that makes that lookup succeed, and every handler is shown to keep it. */
module Spreadsheet {
  import opened Wrappers
  import opened Decimal
  import opened Grid

  datatype State = State(sheets: seq<Sheet>, activeSheetId: string)

  /** The runtime error a handler can throw: `deleteSheet` reads the id of the first remaining sheet
      when no sheet remains. */
  datatype Fault = NoSheetLeft

  /** The id `sheet-${n}` the component gives to fetched sheets (`n` the position) and to added
      sheets (`n` the clock reading). */
  function SheetId(n: nat): string {
    "sheet-" + NatToString(n)
  }

  /** The name `Sheet${n}` the component gives to added sheets. */
  function DefaultName(n: nat): string {
    "Sheet" + NatToString(n)
  }

  // ---------------------------------------------------------------------------------------------
  // The invariant

  predicate HasId(sheets: seq<Sheet>, id: string) {
    exists i :: 0 <= i < |sheets| && sheets[i].id == id
  }

  /** No two sheets share an id. */
  predicate UniqueIds(sheets: seq<Sheet>) {
    forall i, j :: 0 <= i < j < |sheets| ==> sheets[i].id != sheets[j].id
  }

  predicate AllWellShaped(sheets: seq<Sheet>) {
    forall i :: 0 <= i < |sheets| ==> WellShaped(sheets[i].data)
  }

  /** The active id names a sheet of the list, ids are distinct, and every grid has the creation
      shape. */
  predicate Valid(st: State) {
    && HasId(st.sheets, st.activeSheetId)
    && UniqueIds(st.sheets)
    && AllWellShaped(st.sheets)
  }

  /** Two lists with the same ids position by position. */
  predicate SameIds(a: seq<Sheet>, b: seq<Sheet>) {
    |a| == |b| && forall i :: 0 <= i < |a| ==> a[i].id == b[i].id
  }

  // ---------------------------------------------------------------------------------------------
  // Lookup

  /** The position of the first sheet with the given id, as `Array.prototype.find` scans. */
  function FindIndex(sheets: seq<Sheet>, id: string): (k: Option<nat>)
    ensures k.Some? ==> k.value < |sheets| && sheets[k.value].id == id
    ensures k.Some? ==> forall j :: 0 <= j < k.value ==> sheets[j].id != id
    ensures k.None? <==> !HasId(sheets, id)
    decreases |sheets|
  {
    if |sheets| == 0 then None
    else if sheets[0].id == id then Some(0)
    else match FindIndex(sheets[1..], id)
      case None => None
      case Some(k) => Some(k + 1)
  }

  /** The lookup only looks at ids. */
  lemma FindIndexSameIds(a: seq<Sheet>, b: seq<Sheet>, id: string)
    requires SameIds(a, b)
    ensures FindIndex(a, id) == FindIndex(b, id)
  {
  }

  /** Under distinct ids, the sheet at a position is the one found by its id. */
  lemma FindIndexUnique(sheets: seq<Sheet>, k: nat)
    requires UniqueIds(sheets)
    requires k < |sheets|
    ensures FindIndex(sheets, sheets[k].id) == Some(k)
  {
  }

  /** The sheet the component shows: `sheets.find(s => s.id === activeSheetId)`. */
  function ActiveSheet(st: State): (r: Option<Sheet>)
    ensures r.Some? ==> r.value in st.sheets && r.value.id == st.activeSheetId
    ensures r.Some? ==> exists k :: 0 <= k < |st.sheets| && st.sheets[k] == r.value &&
                          (forall j :: 0 <= j < k ==> st.sheets[j].id != st.activeSheetId)
    ensures r.None? <==> !HasId(st.sheets, st.activeSheetId)
  {
    match FindIndex(st.sheets, st.activeSheetId)
    case None => None
    case Some(k) => Some(st.sheets[k])
  }

  /** The non-null assertion on the lookup holds in every valid state, and the sheet found has the
      creation shape. */
  lemma ActiveSheetExists(st: State)
    requires Valid(st)
    ensures ActiveSheet(st).Some?
    ensures WellShaped(ActiveSheet(st).value.data)
  {
  }

  /** The text of a cell of the active sheet as the grid shows it; None when there is no active
      sheet or no such cell. */
  function CellAt(st: State, row: int, col: int): (r: Option<string>)
    ensures r.Some? <==> ActiveSheet(st).Some? && InRange(ActiveSheet(st).value.data, row, col)
  {
    match ActiveSheet(st)
    case None => None
    case Some(s) => if InRange(s.data, row, col) then Some(s.data[row][col].value) else None
  }

  // ---------------------------------------------------------------------------------------------
  // Initial state

  /** Three empty sheets, the first one active. */
  function InitialState(): (st: State)
    ensures |st.sheets| == 3
    ensures forall i :: 0 <= i < |st.sheets| ==> Blank(st.sheets[i].data)
    ensures Valid(st)
    ensures ActiveSheet(st) == Some(st.sheets[0])
  {
    var st := State([CreateEmptySheet("sheet-1", "Sheet1"),
                      CreateEmptySheet("sheet-2", "Sheet2"),
                      CreateEmptySheet("sheet-3", "Sheet3")], "sheet-1");
    assert "sheet-1"[6] != "sheet-2"[6] && "sheet-1"[6] != "sheet-3"[6] && "sheet-2"[6] != "sheet-3"[6];
    assert st.sheets[0].id == st.activeSheetId;
    st
  }

  // ---------------------------------------------------------------------------------------------
  // Editing a cell

  /** `handleCellChange`: every sheet whose id is the active id gets the cell written; nothing else
      changes. */
  function HandleCellChange(st: State, row: int, col: int, v: string): (st': State)
    ensures st'.activeSheetId == st.activeSheetId
    ensures SameIds(st.sheets, st'.sheets)
    ensures forall i :: 0 <= i < |st.sheets| ==> st'.sheets[i].name == st.sheets[i].name
    ensures forall i :: 0 <= i < |st.sheets| && st.sheets[i].id != st.activeSheetId ==>
              st'.sheets[i] == st.sheets[i]
    ensures forall i :: 0 <= i < |st.sheets| && st.sheets[i].id == st.activeSheetId ==>
              CellWritten(st.sheets[i].data, st'.sheets[i].data, row, col, v)
  {
    var sheets := seq(|st.sheets|, i requires 0 <= i < |st.sheets| =>
      var s := st.sheets[i];
      if s.id == st.activeSheetId then s.(data := SetCell(s.data, row, col, v)) else s);
    State(sheets, st.activeSheetId)
  }

  /** Reading back an edit: the edited cell of the active sheet shows the new text, every other
      cell shows what it showed before, and cells that did not exist still do not. */
  lemma CellChangeReadBack(st: State, row: int, col: int, v: string, r: int, c: int)
    ensures CellAt(HandleCellChange(st, row, col, v), r, c) ==
              if r == row && c == col && CellAt(st, r, c).Some? then Some(v) else CellAt(st, r, c)
  {
    FindIndexSameIds(st.sheets, HandleCellChange(st, row, col, v).sheets, st.activeSheetId);
  }

  /** An edit outside the ROWS by COLS grid leaves the whole state as it was. */
  lemma CellChangeOutOfRange(st: State, row: int, col: int, v: string)
    requires AllWellShaped(st.sheets)
    requires !(0 <= row < ROWS && 0 <= col < COLS)
    ensures HandleCellChange(st, row, col, v) == st
  {
    var st' := HandleCellChange(st, row, col, v);
    forall i | 0 <= i < |st.sheets|
      ensures st'.sheets[i] == st.sheets[i]
    {
      if st.sheets[i].id == st.activeSheetId {
        SetCellOutOfRange(st.sheets[i].data, row, col, v);
      }
    }
  }

  lemma CellChangeValid(st: State, row: int, col: int, v: string)
    requires Valid(st)
    ensures Valid(HandleCellChange(st, row, col, v))
  {
  }

  // ---------------------------------------------------------------------------------------------
  // Adding a sheet

  /** `addNewSheet`: append one empty sheet named after the new length, with an id built from the
      clock reading `now`, and make it active. */
  function AddNewSheet(st: State, now: nat): (st': State)
    ensures |st'.sheets| == |st.sheets| + 1
    ensures st'.sheets[..|st.sheets|] == st.sheets
    ensures st'.sheets[|st.sheets|].id == SheetId(now) == st'.activeSheetId
    ensures st'.sheets[|st.sheets|].name == DefaultName(|st.sheets| + 1)
    ensures WellShaped(st'.sheets[|st.sheets|].data) && Blank(st'.sheets[|st.sheets|].data)
  {
    var s := CreateEmptySheet(SheetId(now), DefaultName(|st.sheets| + 1));
    State(st.sheets + [s], s.id)
  }

  /** With a fresh id, adding keeps the invariant and the new sheet is the one shown. */
  lemma AddNewSheetValid(st: State, now: nat)
    requires Valid(st)
    requires !HasId(st.sheets, SheetId(now))
    ensures Valid(AddNewSheet(st, now))
    ensures ActiveSheet(AddNewSheet(st, now)) == Some(AddNewSheet(st, now).sheets[|st.sheets|])
  {
  }

  // ---------------------------------------------------------------------------------------------
  // Deleting a sheet

  /** `sheets.filter(s => s.id !== id)`. */
  function Without(sheets: seq<Sheet>, id: string): (r: seq<Sheet>)
    ensures |r| <= |sheets|
    ensures forall s :: s in r <==> s in sheets && s.id != id
    decreases |sheets|
  {
    if |sheets| == 0 then []
    else (if sheets[0].id != id then [sheets[0]] else []) + Without(sheets[1..], id)
  }

  /** The filter works piece by piece: filtering a concatenation is concatenating the filtered
      parts. With the one-sheet cases of the definition, this fixes the result completely: the
      kept sheets appear in their original order, each as often as in the input. */
  lemma {:induction false} WithoutConcat(a: seq<Sheet>, b: seq<Sheet>, id: string)
    ensures Without(a + b, id) == Without(a, id) + Without(b, id)
    decreases |a|
  {
    if |a| > 0 {
      var head := if a[0].id != id then [a[0]] else [];
      assert (a + b)[0] == a[0];
      assert (a + b)[1..] == a[1..] + b;
      assert Without(a + b, id) == head + Without(a[1..] + b, id);
      WithoutConcat(a[1..], b, id);
      assert Without(a, id) == head + Without(a[1..], id);
    } else {
      assert a + b == b;
    }
  }

  /** Filtering out an id no sheet has keeps the list as it is. */
  lemma {:induction false} WithoutAbsent(sheets: seq<Sheet>, id: string)
    requires !HasId(sheets, id)
    ensures Without(sheets, id) == sheets
    decreases |sheets|
  {
    if |sheets| > 0 {
      assert !HasId(sheets[1..], id);
      WithoutAbsent(sheets[1..], id);
      assert sheets == [sheets[0]] + sheets[1..];
    }
  }

  /** Under distinct ids, no sheet before or after position `k` carries the id at `k`. */
  lemma IdOnlyAt(sheets: seq<Sheet>, k: nat)
    requires UniqueIds(sheets)
    requires k < |sheets|
    ensures !HasId(sheets[..k], sheets[k].id)
    ensures !HasId(sheets[k + 1..], sheets[k].id)
  {
  }

  /** Filtering out an id that only the middle sheet carries removes that sheet alone. */
  lemma WithoutMiddle(before: seq<Sheet>, x: Sheet, after: seq<Sheet>)
    requires !HasId(before, x.id) && !HasId(after, x.id)
    ensures Without(before + [x] + after, x.id) == before + after
  {
    var id := x.id;
    calc {
      Without(before + [x] + after, id);
      { assert before + [x] + after == before + ([x] + after); }
      Without(before + ([x] + after), id);
      { WithoutConcat(before, [x] + after, id); }
      Without(before, id) + Without([x] + after, id);
      { WithoutConcat([x], after, id); }
      Without(before, id) + (Without([x], id) + Without(after, id));
      { assert [x][1..] == []; }
      Without(before, id) + Without(after, id);
      { WithoutAbsent(before, id); WithoutAbsent(after, id); }
      before + after;
    }
  }

  /** Under distinct ids, filtering out the id of the sheet at position `k` removes exactly that
      sheet and keeps the others in their order. */
  lemma WithoutAt(sheets: seq<Sheet>, k: nat)
    requires UniqueIds(sheets)
    requires k < |sheets|
    ensures Without(sheets, sheets[k].id) == sheets[..k] + sheets[k + 1..]
  {
    IdOnlyAt(sheets, k);
    WithoutMiddle(sheets[..k], sheets[k], sheets[k + 1..]);
    assert sheets == sheets[..k] + [sheets[k]] + sheets[k + 1..];
  }

  /** `deleteSheet`: refuse to delete the only sheet; otherwise filter the id out and, when the
      active sheet was deleted, activate the first sheet left. Reading the first sheet of an empty
      list throws. */
  function DeleteSheet(st: State, id: string): (r: Result<State, Fault>)
    ensures |st.sheets| == 1 ==> r == Success(st)
    ensures r.Failure? <==>
              |st.sheets| != 1 && st.activeSheetId == id && forall s :: s in st.sheets ==> s.id == id
    ensures r.Success? && |st.sheets| != 1 ==> r.value.sheets == Without(st.sheets, id)
    ensures r.Success? && st.activeSheetId != id ==> r.value.activeSheetId == st.activeSheetId
    ensures r.Success? && |st.sheets| != 1 && st.activeSheetId == id ==>
              |r.value.sheets| > 0 && r.value.activeSheetId == r.value.sheets[0].id
  {
    if |st.sheets| == 1 then Success(st)
    else
      var rest := Without(st.sheets, id);
      if st.activeSheetId == id then
        if |rest| == 0 then
          assert forall s :: s in st.sheets ==> s.id == id;
          Failure(NoSheetLeft)
        else Success(State(rest, rest[0].id))
      else Success(State(rest, st.activeSheetId))
  }

  /** Taking the sheet at position `k` out of a list shifts the later sheets down by one and keeps
      the ids distinct and the shapes fixed. */
  lemma RemoveAtKeeps(sheets: seq<Sheet>, k: nat)
    requires k < |sheets|
    requires UniqueIds(sheets) && AllWellShaped(sheets)
    ensures var rest := sheets[..k] + sheets[k + 1..];
      && |rest| == |sheets| - 1
      && (forall i :: 0 <= i < |rest| ==> rest[i] == sheets[if i < k then i else i + 1])
      && UniqueIds(rest)
      && AllWellShaped(rest)
  {
  }

  /** Deleting the id of the sheet at position `k` from a valid state with two or more sheets. */
  lemma DeletePresentValid(st: State, k: nat)
    requires Valid(st)
    requires |st.sheets| >= 2 && k < |st.sheets|
    ensures DeleteSheet(st, st.sheets[k].id).Success?
    ensures DeleteSheet(st, st.sheets[k].id).value.sheets == st.sheets[..k] + st.sheets[k + 1..]
    ensures Valid(DeleteSheet(st, st.sheets[k].id).value)
  {
    var id := st.sheets[k].id;
    WithoutAt(st.sheets, k);
    RemoveAtKeeps(st.sheets, k);
    var rest := st.sheets[..k] + st.sheets[k + 1..];
    if st.activeSheetId != id {
      var a :| 0 <= a < |st.sheets| && st.sheets[a].id == st.activeSheetId;
      assert rest[if a < k then a else a - 1].id == st.activeSheetId;
    }
  }

  /** Deleting from a valid state never throws and keeps the invariant. */
  lemma DeleteSheetValid(st: State, id: string)
    requires Valid(st)
    ensures DeleteSheet(st, id).Success?
    ensures Valid(DeleteSheet(st, id).value)
  {
    if |st.sheets| != 1 {
      if HasId(st.sheets, id) {
        var k :| 0 <= k < |st.sheets| && st.sheets[k].id == id;
        DeletePresentValid(st, k);
      } else {
        WithoutAbsent(st.sheets, id);
      }
    }
  }

  // ---------------------------------------------------------------------------------------------
  // Renaming a sheet

  /** `renameSheet`: every sheet with the given id takes the new name; nothing else changes. */
  function RenameSheet(st: State, id: string, name: string): (st': State)
    ensures st'.activeSheetId == st.activeSheetId
    ensures SameIds(st.sheets, st'.sheets)
    ensures forall i :: 0 <= i < |st.sheets| ==> st'.sheets[i].data == st.sheets[i].data
    ensures forall i :: 0 <= i < |st.sheets| ==>
              st'.sheets[i].name == (if st.sheets[i].id == id then name else st.sheets[i].name)
  {
    var sheets := seq(|st.sheets|, i requires 0 <= i < |st.sheets| =>
      var s := st.sheets[i];
      if s.id == id then s.(name := name) else s);
    State(sheets, st.activeSheetId)
  }

  lemma RenameSheetValid(st: State, id: string, name: string)
    requires Valid(st)
    ensures Valid(RenameSheet(st, id, name))
  {
  }

  /** Renaming never changes what any cell of the active sheet shows. */
  lemma RenameKeepsCells(st: State, id: string, name: string, r: int, c: int)
    ensures CellAt(RenameSheet(st, id, name), r, c) == CellAt(st, r, c)
  {
    FindIndexSameIds(st.sheets, RenameSheet(st, id, name).sheets, st.activeSheetId);
  }

  /** Renaming twice to the same name is renaming once. */
  lemma RenameIdempotent(st: State, id: string, name: string)
    ensures RenameSheet(RenameSheet(st, id, name), id, name) == RenameSheet(st, id, name)
  {
  }

  // ---------------------------------------------------------------------------------------------
  // Selecting a sheet

  /** A click on a sheet's tab makes that sheet's id the active one. */
  function SelectSheet(st: State, id: string): (st': State)
    ensures st'.sheets == st.sheets
    ensures ActiveSheet(st').Some? <==> HasId(st.sheets, id)
    ensures ActiveSheet(st').Some? ==> ActiveSheet(st').value.id == id
  {
    st.(activeSheetId := id)
  }

  // ---------------------------------------------------------------------------------------------
  // Loading the table list

  /** One entry of the fetched table list: a bare name, or a record whose `table_name` may be
      absent. */
  datatype TableItem = TableText(text: string) | TableRecord(tableName: Option<string>)

  /** The outcome of the fetch: `Unusable` when the request or JSON parsing threw, or when the
      response has no `tables` array; otherwise the entries of that array. */
  datatype Payload = Unusable | TableList(items: seq<TableItem>)

  /** How a record with no usable `table_name` ends up displayed: the record object itself becomes
      the name, and its string conversion is this text. */
  const OBJECT_TEXT: string := "[object Object]"

  /** `table.table_name || table`: a non-empty `table_name`, else the entry itself. */
  function TableName(item: TableItem): string {
    match item
    case TableText(t) => t
    case TableRecord(Some(n)) => if n != "" then n else OBJECT_TEXT
    case TableRecord(None) => OBJECT_TEXT
  }

  /** The effect of `fetchTables` on the state: a non-empty table list replaces the sheets by one
      empty sheet per table, in order, with ids `sheet-0`, `sheet-1`, ..., and activates the first;
      anything else leaves the state as it was. */
  function ApplyTables(st: State, p: Payload): (st': State)
    ensures p.Unusable? || |p.items| == 0 ==> st' == st
    ensures p.TableList? && |p.items| > 0 ==>
              && |st'.sheets| == |p.items|
              && st'.activeSheetId == st'.sheets[0].id
              && forall i :: 0 <= i < |p.items| ==>
                   && st'.sheets[i].id == SheetId(i)
                   && st'.sheets[i].name == TableName(p.items[i])
                   && WellShaped(st'.sheets[i].data)
                   && Blank(st'.sheets[i].data)
  {
    match p
    case Unusable => st
    case TableList(items) =>
      if |items| == 0 then st
      else
        var sheets := seq(|items|, i requires 0 <= i < |items| =>
          CreateEmptySheet(SheetId(i), TableName(items[i])));
        State(sheets, sheets[0].id)
  }

  /** A loaded table list always yields a valid state: the positional ids are distinct. */
  lemma ApplyTablesValid(st: State, p: Payload)
    requires p.TableList? && |p.items| > 0
    ensures Valid(ApplyTables(st, p))
  {
    var st' := ApplyTables(st, p);
    forall i, j | 0 <= i < j < |st'.sheets|
      ensures st'.sheets[i].id != st'.sheets[j].id
    {
      PrefixedInjective("sheet-", i, j);
    }
    assert st'.sheets[0].id == st'.activeSheetId;
  }

  // ---------------------------------------------------------------------------------------------
  // The component as a state machine

  /** Everything that changes the component's state. */
  datatype Event =
    | EditCell(row: int, col: int, value: string)
    | AddSheet(now: nat)
    | RemoveSheet(id: string)
    | Rename(id: string, name: string)
    | Select(id: string)
    | TablesFetched(payload: Payload)

  function Step(st: State, e: Event): Result<State, Fault> {
    match e
    case EditCell(r, c, v) => Success(HandleCellChange(st, r, c, v))
    case AddSheet(now) => Success(AddNewSheet(st, now))
    case RemoveSheet(id) => DeleteSheet(st, id)
    case Rename(id, n) => Success(RenameSheet(st, id, n))
    case Select(id) => Success(SelectSheet(st, id))
    case TablesFetched(p) => Success(ApplyTables(st, p))
  }

  /** What the environment guarantees about an event: the clock gives a fresh id, and tabs exist only
      for sheets of the list. */
  predicate Admissible(st: State, e: Event) {
    match e
    case AddSheet(now) => !HasId(st.sheets, SheetId(now))
    case Select(id) => HasId(st.sheets, id)
    case _ => true
  }

  /** Every admissible event takes a valid state to a valid state without throwing. */
  lemma StepValid(st: State, e: Event)
    requires Valid(st) && Admissible(st, e)
    ensures Step(st, e).Success?
    ensures Valid(Step(st, e).value)
  {
    match e
    case EditCell(r, c, v) => CellChangeValid(st, r, c, v);
    case AddSheet(now) => AddNewSheetValid(st, now);
    case RemoveSheet(id) => DeleteSheetValid(st, id);
    case Rename(id, n) => RenameSheetValid(st, id, n);
    case Select(id) =>
    case TablesFetched(p) => if p.TableList? && |p.items| > 0 { ApplyTablesValid(st, p); }
  }

  /** The state after a sequence of events, stopping at the first one that throws. */
  function Run(st: State, events: seq<Event>): Result<State, Fault>
    decreases |events|
  {
    if |events| == 0 then Success(st)
    else match Step(st, events[0])
      case Failure(f) => Failure(f)
      case Success(next) => Run(next, events[1..])
  }

  /** Every event of the sequence is admissible in the state it meets. */
  predicate AdmissibleRun(st: State, events: seq<Event>)
    decreases |events|
  {
    |events| == 0 ||
    (Admissible(st, events[0]) &&
     (Step(st, events[0]).Success? ==> AdmissibleRun(Step(st, events[0]).value, events[1..])))
  }

  /** From a valid state, any admissible sequence of events runs without throwing and ends valid. */
  lemma {:induction false} RunValid(st: State, events: seq<Event>)
    requires Valid(st)
    requires AdmissibleRun(st, events)
    ensures Run(st, events).Success?
    ensures Valid(Run(st, events).value)
    decreases |events|
  {
    if |events| > 0 {
      StepValid(st, events[0]);
      RunValid(Step(st, events[0]).value, events[1..]);
    }
  }

  /** The component's lookup of the active sheet never fails, whatever admissible sequence of
      events follows the initial state. */
  lemma ActiveSheetAlwaysFound(events: seq<Event>)
    requires AdmissibleRun(InitialState(), events)
    ensures Run(InitialState(), events).Success?
    ensures ActiveSheet(Run(InitialState(), events).value).Some?
  {
    RunValid(InitialState(), events);
  }
}
