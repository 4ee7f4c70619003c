/**
  The persistence layer of src/db.ts, modelled as the sequence of SQL
  commands it hands to the database. The database itself is not modelled:
  which command throws, if any, is an input.
 */
module Db {
  import opened Wrappers
  import opened Text
  import Muni

  /** The columns of the `vehicle_locations` table that an insert fills. */
  datatype Column =
    | VehicleId | Time | Lon | RouteTag | Predictable
    | SpeedKmHr | Heading | Lat | SecsSinceReport

  /** The columns of one insert, in the order the values are bound. */
  const Columns: seq<Column> := [
    VehicleId, Time, Lon, RouteTag, Predictable, SpeedKmHr, Heading, Lat, SecsSinceReport]

  lemma ColumnsInOrder()
    ensures |Columns| == 9
    ensures Columns[0] == VehicleId && Columns[1] == Time && Columns[2] == Lon
    ensures Columns[3] == RouteTag && Columns[4] == Predictable && Columns[5] == SpeedKmHr
    ensures Columns[6] == Heading && Columns[7] == Lat && Columns[8] == SecsSinceReport
  {
  }

  function ColumnName(c: Column): string {
    match c
    case VehicleId => "vehicleId"
    case Time => "time"
    case Lon => "lon"
    case RouteTag => "routeTag"
    case Predictable => "predictable"
    case SpeedKmHr => "speedKmHr"
    case Heading => "heading"
    case Lat => "lat"
    case SecsSinceReport => "secsSinceReport"
  }

  /** The column names as the statement spells them. */
  function ColumnNames(): (names: seq<string>)
    ensures |names| == |Columns|
    ensures forall i :: 0 <= i < |Columns| ==> names[i] == ColumnName(Columns[i])
  {
    seq(|Columns|, i requires 0 <= i < |Columns| => ColumnName(Columns[i]))
  }

  const Table: string := "vehicle_locations"

  /** A bound parameter: a string, a JavaScript number (`None` is NaN), a
      boolean, or the `toString()` of an unparsed float. */
  datatype SqlValue =
    | Text(text: string)
    | Number(number: Option<int>)
    | Boolean(flag: bool)
    | FloatString(float: Muni.Float)

  /** The statements this module issues. */
  datatype Statement =
    | BeginTransaction
    | InsertInto(table: string, columns: seq<string>)
    | CommitTransaction

  datatype Command = Command(statement: Statement, params: seq<SqlValue>)

  const Begin: Command := Command(BeginTransaction, [])
  const Commit: Command := Command(CommitTransaction, [])

  /** The text of an insert into `table` naming `columns`, with one `?`
      placeholder per column. */
  function InsertStatement(table: string, columns: seq<string>): (r: string)
    ensures "INSERT INTO " + table <= r
    ensures |r| > 0 && r[|r| - 1] == ')'
  {
    "INSERT INTO " + table + " (" + Join(columns, ',') + ") VALUES ("
      + Join(Repeat("?", |columns|), ',') + ")"
  }

  /** The SQL text of a statement. */
  function Sql(s: Statement): (r: string)
    ensures r == "begin transaction" <==> s.BeginTransaction?
    ensures r == "commit" <==> s.CommitTransaction?
  {
    match s
    case BeginTransaction => "begin transaction"
    case InsertInto(table, columns) => InsertStatement(table, columns)
    case CommitTransaction => "commit"
  }

  /** `Math.floor(nowMs / 1000)`: the clock reading in whole seconds. */
  function EpochSeconds(nowMs: int): (secs: int)
    ensures secs * 1000 <= nowMs < secs * 1000 + 1000
  {
    nowMs / 1000
  }

  /** Reference table: the value stored under each column for a location
      inserted at clock reading `nowMs`. */
  function ColumnValue(column: Column, loc: Muni.VehicleLocation, nowMs: int): SqlValue {
    match column
    case VehicleId => Text(loc.id)
    case Time => Number(Some(EpochSeconds(nowMs)))
    case Lon => FloatString(loc.lon)
    case RouteTag => Text(loc.routeTag)
    case Predictable => Boolean(loc.predictable)
    case SpeedKmHr => Number(loc.speedKmHr)
    case Heading => Number(loc.heading)
    case Lat => FloatString(loc.lat)
    case SecsSinceReport => Number(loc.secsSinceReport)
  }

  /** `insertVehicleLocation`: one insert into `vehicle_locations` binding
      the location's fields positionally; `nowMs` is the `Date.now()`
      reading taken for this row. */
  function InsertVehicleLocation(loc: Muni.VehicleLocation, nowMs: int): (c: Command)
    ensures c.statement == InsertInto(Table, ColumnNames())
    ensures |c.params| == |Columns|
  {
    Command(InsertInto(Table, ColumnNames()), [
      Text(loc.id),
      Number(Some(EpochSeconds(nowMs))),
      FloatString(loc.lon),
      Text(loc.routeTag),
      Boolean(loc.predictable),
      Number(loc.speedKmHr),
      Number(loc.heading),
      FloatString(loc.lat),
      Number(loc.secsSinceReport)])
  }

  /** The bound values line up with the column list: the value in position
      `i` is the one the reference table gives for column `i`. */
  lemma InsertValuesAligned(loc: Muni.VehicleLocation, nowMs: int)
    ensures forall i :: 0 <= i < |Columns| ==>
              InsertVehicleLocation(loc, nowMs).params[i] == ColumnValue(Columns[i], loc, nowMs)
  {
    var values := InsertVehicleLocation(loc, nowMs).params;
    ColumnsInOrder();
    assert values[0] == ColumnValue(VehicleId, loc, nowMs);
    assert values[1] == ColumnValue(Time, loc, nowMs);
    assert values[2] == ColumnValue(Lon, loc, nowMs);
    assert values[3] == ColumnValue(RouteTag, loc, nowMs);
    assert values[4] == ColumnValue(Predictable, loc, nowMs);
    assert values[5] == ColumnValue(SpeedKmHr, loc, nowMs);
    assert values[6] == ColumnValue(Heading, loc, nowMs);
    assert values[7] == ColumnValue(Lat, loc, nowMs);
    assert values[8] == ColumnValue(SecsSinceReport, loc, nowMs);
  }

  /** No column name contains a comma or a question mark. */
  lemma ColumnNamesAreClean()
    ensures forall i :: 0 <= i < |Columns| ==> ',' !in ColumnNames()[i] && '?' !in ColumnNames()[i]
  {
    forall c: Column
      ensures ',' !in ColumnName(c) && '?' !in ColumnName(c)
    {
      ColumnNameIsClean(c);
    }
  }

  lemma ColumnNameIsClean(c: Column)
    ensures ',' !in ColumnName(c) && '?' !in ColumnName(c)
  {
    match c
    case VehicleId => assert ',' !in "vehicleId" && '?' !in "vehicleId";
    case Time => assert ',' !in "time" && '?' !in "time";
    case Lon => assert ',' !in "lon" && '?' !in "lon";
    case RouteTag => assert ',' !in "routeTag" && '?' !in "routeTag";
    case Predictable => assert ',' !in "predictable" && '?' !in "predictable";
    case SpeedKmHr => assert ',' !in "speedKmHr" && '?' !in "speedKmHr";
    case Heading => assert ',' !in "heading" && '?' !in "heading";
    case Lat => assert ',' !in "lat" && '?' !in "lat";
    case SecsSinceReport => assert ',' !in "secsSinceReport" && '?' !in "secsSinceReport";
  }

  /** The fixed text of an insert statement has no question mark. */
  lemma FixedTextHasNoMarks()
    ensures '?' !in "INSERT INTO " && '?' !in " (" && '?' !in ") VALUES (" && '?' !in ")"
  {
    var head := "INSERT INTO ";
    forall i | 0 <= i < |head| ensures head[i] != '?' {}
  }

  /** An insert statement's only question marks are its placeholders. */
  lemma InsertStatementPlaceholders(table: string, columns: seq<string>)
    requires '?' !in table
    requires forall i :: 0 <= i < |columns| ==> '?' !in columns[i]
    ensures multiset(InsertStatement(table, columns))['?'] == |columns|
  {
    FixedTextHasNoMarks();
    JoinAvoids(columns, ',', '?');
    PlaceholderCount(|columns|, ',');
    CountAcrossPieces("INSERT INTO ", table, " (", Join(columns, ','), ") VALUES (",
                      Join(Repeat("?", |columns|), ','), ")", '?');
  }

  /** Occurrences of a character in a concatenation of seven pieces, the
      character appearing in the sixth only. */
  lemma CountAcrossPieces(a: string, b: string, c: string, d: string, e: string, f: string, g: string, m: char)
    requires m !in a && m !in b && m !in c && m !in d && m !in e && m !in g
    ensures multiset(a + b + c + d + e + f + g)[m] == multiset(f)[m]
  {
    assert multiset(a + b + c + d + e + f + g)
           == multiset(a) + multiset(b) + multiset(c) + multiset(d) + multiset(e) + multiset(f) + multiset(g);
  }

  /** An insert's text differs from both transaction commands. */
  lemma InsertIsNotTransactionControl(table: string, columns: seq<string>)
    ensures Sql(InsertInto(table, columns)) != Sql(BeginTransaction)
    ensures Sql(InsertInto(table, columns)) != Sql(CommitTransaction)
  {
    assert Sql(InsertInto(table, columns))[0] == 'I';
  }

  /** The statement's column list reads back as the column names. */
  lemma ColumnListRoundTrip()
    ensures Split(Join(ColumnNames(), ','), ',') == ColumnNames()
  {
    ColumnNamesAreClean();
    SplitJoin(ColumnNames(), ',');
  }

  /** The insert's text has one placeholder per column. */
  lemma InsertTextPlaceholders()
    ensures multiset(Sql(InsertInto(Table, ColumnNames())))['?'] == |Columns|
  {
    ColumnNamesAreClean();
    assert '?' !in Table;
    InsertStatementPlaceholders(Table, ColumnNames());
  }

  /** The insert names nine columns, which its column list spells out and
      which are matched by exactly as many placeholders as bound values. */
  lemma InsertShape(loc: Muni.VehicleLocation, nowMs: int)
    ensures |Columns| == 9
    ensures Split(Join(ColumnNames(), ','), ',') == ColumnNames()
    ensures multiset(Sql(InsertVehicleLocation(loc, nowMs).statement))['?']
            == |InsertVehicleLocation(loc, nowMs).params|
  {
    ColumnsInOrder();
    ColumnListRoundTrip();
    InsertTextPlaceholders();
  }

  /** Each row reads the clock itself, so two rows of one batch can carry
      different `time` values. */
  lemma RowsReadTheClockSeparately(loc: Muni.VehicleLocation)
    ensures InsertVehicleLocation(loc, 999).params[1] != InsertVehicleLocation(loc, 1000).params[1]
  {
    assert EpochSeconds(999) == 0;
    assert EpochSeconds(1000) == 1;
  }

  /** The inserts for a whole batch, row `i` at clock reading `clock[i]`. */
  function Inserts(locs: seq<Muni.VehicleLocation>, clock: seq<int>): (cs: seq<Command>)
    requires |clock| == |locs|
    ensures |cs| == |locs|
    ensures forall i :: 0 <= i < |locs| ==> cs[i] == InsertVehicleLocation(locs[i], clock[i])
  {
    seq(|locs|, i requires 0 <= i < |locs| => InsertVehicleLocation(locs[i], clock[i]))
  }

  /** Which database call throws, if any. */
  datatype Fault = NoFault | FailBegin | FailInsert(index: nat) | FailCommit

  /** `insertVehicleLocations`: the commands that completed, and whether the
      call returned normally. A throwing command ends the call: nothing after
      it runs, and no rollback is issued. */
  method InsertVehicleLocations(locs: seq<Muni.VehicleLocation>, clock: seq<int>, fault: Fault)
    returns (completed: seq<Command>, committed: bool)
    requires |clock| == |locs|
    ensures committed <==> fault == NoFault || (fault.FailInsert? && fault.index >= |locs|)
    ensures committed ==> completed == [Begin] + Inserts(locs, clock) + [Commit]
    ensures fault == FailBegin ==> completed == []
    ensures fault.FailInsert? && fault.index < |locs| ==>
              completed == [Begin] + Inserts(locs, clock)[..fault.index]
    ensures fault == FailCommit ==> completed == [Begin] + Inserts(locs, clock)
    ensures !committed ==> Commit !in completed
  {
    if fault == FailBegin {
      return [], false;
    }
    ghost var all := Inserts(locs, clock);
    completed := [Begin];
    var i := 0;
    while i < |locs|
      invariant 0 <= i <= |locs|
      invariant completed == [Begin] + all[..i]
      invariant fault.FailInsert? ==> i <= fault.index
      invariant Commit !in completed
    {
      if fault == FailInsert(i) {
        return completed, false;
      }
      completed := completed + [InsertVehicleLocation(locs[i], clock[i])];
      assert all[..i + 1] == all[..i] + [all[i]];
      i := i + 1;
    }
    assert all[..i] == all;
    if fault == FailCommit {
      return completed, false;
    }
    completed := completed + [Commit];
    committed := true;
  }
}
