/**
  Host records and their database operations (src/db.rs). The SQL engine is
  not modelled: a `Db` answers each request with whatever its oracle
  functions say, given every request it served before, and records the
  request, so that what the operations send is observable.
 */
module Db {
  import opened Types
  import opened Text

  datatype Host = Host(id: i32, name: string, ipAddress: string, macAddress: string)

  /** A partial update: only the fields that are present are written. */
  datatype HostUpdate = HostUpdate(name: Option<string>, ipAddress: Option<string>, macAddress: Option<string>)

  /** A value bound to a `?` placeholder. */
  datatype Arg = Int(intValue: i32) | Str(strValue: string)

  datatype Query = Query(sql: string, args: seq<Arg>)

  /** The two ways the operations talk to the engine: `fetch_one` and `execute`. */
  datatype Request = FetchOne(query: Query) | Execute(query: Query)

  /** `Box<dyn Error>`: an engine error, or an error made from a message. */
  datatype Error = Database(detail: string) | Message(text: string)

  const SelectById: string := "SELECT id, name, ip_address, mac_address FROM hosts WHERE id = ?"
  const InsertHost: string :=
    "\n            INSERT INTO hosts (name, ip_address, mac_address)\n            VALUES (?, ?, ?);\n            SELECT last_insert_rowid();\n            "
  const DeleteById: string := "DELETE FROM hosts WHERE id = ?"
  const UpdatePrefix: string := "UPDATE hosts SET"
  const UpdateSuffix: string := " WHERE id = ?"
  const UpdateFailed: string := "Failed to update host"

  /** The connection: an oracle for each kind of answer, and the requests served so far. */
  class Db {
    const fetchId: (seq<Request>, Query) -> Result<i32, Error>
    const fetchHost: (seq<Request>, Query) -> Result<Host, Error>
    const execute: (seq<Request>, Query) -> Result<nat, Error>
    var served: seq<Request>

    constructor (
      fetchId: (seq<Request>, Query) -> Result<i32, Error>,
      fetchHost: (seq<Request>, Query) -> Result<Host, Error>,
      execute: (seq<Request>, Query) -> Result<nat, Error>)
      ensures this.fetchId == fetchId && this.fetchHost == fetchHost && this.execute == execute
      ensures served == []
    {
      this.fetchId := fetchId;
      this.fetchHost := fetchHost;
      this.execute := execute;
      served := [];
    }

    /** `fetch_one` decoding a single `(i32,)` column. */
    method FetchOneId(query: Query) returns (r: Result<i32, Error>)
      modifies this
      ensures r == fetchId(old(served), query)
      ensures served == old(served) + [FetchOne(query)]
    {
      r := fetchId(served, query);
      served := served + [FetchOne(query)];
    }

    /** `fetch_one` decoding a `Host` row; fails when there is no row. */
    method FetchOneHost(query: Query) returns (r: Result<Host, Error>)
      modifies this
      ensures r == fetchHost(old(served), query)
      ensures served == old(served) + [FetchOne(query)]
    {
      r := fetchHost(served, query);
      served := served + [FetchOne(query)];
    }

    /** `execute`: the number of rows affected. */
    method Execute(query: Query) returns (r: Result<nat, Error>)
      modifies this
      ensures r == execute(old(served), query)
      ensures served == old(served) + [Request.Execute(query)]
    {
      r := execute(served, query);
      served := served + [Request.Execute(query)];
    }
  }

  // ---------------------------------------------------------------------
  // What `Host::update` sends

  datatype Column = NameColumn | IpAddressColumn | MacAddressColumn

  /** The text the builder appends for a present field. */
  function Clause(c: Column): string
  {
    match c
    case NameColumn => " name = ?"
    case IpAddressColumn => " ip_address = ?"
    case MacAddressColumn => " mac_address = ?"
  }

  /** A present field of an update, with the column it writes. */
  datatype Assignment = Assignment(column: Column, value: string)

  function Entry(c: Column, field: Option<string>): seq<Assignment>
  {
    if field.Some? then [Assignment(c, field.value)] else []
  }

  /** The fields an update carries, in the order name, ip_address, mac_address. */
  function Assignments(update: HostUpdate): seq<Assignment>
  {
    Entry(NameColumn, update.name) + Entry(IpAddressColumn, update.ipAddress) +
    Entry(MacAddressColumn, update.macAddress)
  }

  /** `query` with the clause of each assignment appended in turn, and nothing between them. */
  function AppendClauses(query: string, assignments: seq<Assignment>): (r: string)
    ensures query <= r
    decreases |assignments|
  {
    if |assignments| == 0 then query
    else AppendClauses(query + Clause(assignments[0].column), assignments[1..])
  }

  /** The query the builder produces. */
  function UpdateQuery(update: HostUpdate): (q: string)
    ensures UpdatePrefix <= q
    ensures |q| >= |UpdatePrefix| + |UpdateSuffix| && q[|q| - |UpdateSuffix|..] == UpdateSuffix
  {
    AppendClauses(UpdatePrefix, Assignments(update)) + UpdateSuffix
  }

  /** The arguments the builder binds: the present field values, and not the id. */
  function UpdateArgs(update: HostUpdate): (args: seq<Arg>)
    ensures |args| == |Assignments(update)|
    ensures forall a :: a in args ==> a.Str?
  {
    var assignments := Assignments(update);
    seq(|assignments|, i requires 0 <= i < |assignments| => Str(assignments[i].value))
  }

  function PresentCount(update: HostUpdate): nat
  {
    (if update.name.Some? then 1 else 0) + (if update.ipAddress.Some? then 1 else 0) +
    (if update.macAddress.Some? then 1 else 0)
  }

  lemma {:induction false} AppendClausesAppend(query: string, a: seq<Assignment>, b: seq<Assignment>)
    ensures AppendClauses(query, a + b) == AppendClauses(AppendClauses(query, a), b)
    decreases |a|
  {
    if |a| == 0 {
      assert a + b == b;
    } else {
      assert (a + b)[1..] == a[1..] + b;
      AppendClausesAppend(query + Clause(a[0].column), a[1..], b);
    }
  }

  /** Appending the clauses of one optional field appends its clause exactly when it is present. */
  lemma AppendEntry(query: string, c: Column, field: Option<string>)
    ensures AppendClauses(query, Entry(c, field)) == if field.Some? then query + Clause(c) else query
  {
    if field.Some? {
      assert Entry(c, field)[1..] == [];
    }
  }

  /** What an optional field contributes to the query text. */
  function Fragment(c: Column, field: Option<string>): string
  {
    if field.Some? then Clause(c) else ""
  }

  /** What an optional field contributes to the arguments. */
  function Bound(field: Option<string>): seq<Arg>
  {
    if field.Some? then [Str(field.value)] else []
  }

  /**
    The query is the fixed prefix, then the fragment of each present field in
    the order name, ip_address, mac_address with no separator, then the
    `WHERE` suffix; the arguments are the present values in the same order.
   */
  lemma UpdateFragments(update: HostUpdate)
    ensures UpdateQuery(update) ==
      UpdatePrefix + Fragment(NameColumn, update.name) + Fragment(IpAddressColumn, update.ipAddress) +
      Fragment(MacAddressColumn, update.macAddress) + UpdateSuffix
    ensures UpdateArgs(update) == Bound(update.name) + Bound(update.ipAddress) + Bound(update.macAddress)
  {
    var n, i, m := Entry(NameColumn, update.name), Entry(IpAddressColumn, update.ipAddress),
      Entry(MacAddressColumn, update.macAddress);
    var q1 := UpdatePrefix + Fragment(NameColumn, update.name);
    var q2 := q1 + Fragment(IpAddressColumn, update.ipAddress);
    var q3 := q2 + Fragment(MacAddressColumn, update.macAddress);
    AppendClausesAppend(UpdatePrefix, n + i, m);
    AppendClausesAppend(UpdatePrefix, n, i);
    AppendFragment(UpdatePrefix, NameColumn, update.name);
    AppendFragment(q1, IpAddressColumn, update.ipAddress);
    AppendFragment(q2, MacAddressColumn, update.macAddress);
    assert AppendClauses(UpdatePrefix, Assignments(update)) == q3;
  }

  lemma AppendFragment(query: string, c: Column, field: Option<string>)
    ensures AppendClauses(query, Entry(c, field)) == query + Fragment(c, field)
  {
    AppendEntry(query, c, field);
    if field.None? {
      assert query + Fragment(c, field) == query;
    }
  }

  /** One argument per present field, in field order, and none of them is the id. */
  lemma UpdateArgsArePresentFields(update: HostUpdate)
    ensures |UpdateArgs(update)| == PresentCount(update)
    ensures forall a :: a in UpdateArgs(update) ==> a.Str?
    ensures update.name.Some? ==> UpdateArgs(update)[0] == Str(update.name.value)
    ensures update.macAddress.Some? ==>
      UpdateArgs(update)[PresentCount(update) - 1] == Str(update.macAddress.value)
  {
  }

  lemma ClauseShape(c: Column)
    ensures var s := Clause(c); |s| > 0 && s[|s| - 1] == '?' && '?' !in s[..|s| - 1]
  {
    match c
    case NameColumn =>
    case IpAddressColumn =>
    case MacAddressColumn =>
  }

  lemma ClauseHasNoComma(c: Column)
    ensures ',' !in Clause(c)
  {
    match c
    case NameColumn =>
    case IpAddressColumn =>
    case MacAddressColumn =>
  }

  /** Each clause adds one placeholder and no comma. */
  lemma {:induction false} AppendClausesText(query: string, assignments: seq<Assignment>)
    ensures Occurrences(AppendClauses(query, assignments), '?') == Occurrences(query, '?') + |assignments|
    ensures ',' !in query ==> ',' !in AppendClauses(query, assignments)
    decreases |assignments|
  {
    if |assignments| > 0 {
      var c := assignments[0].column;
      ClauseShape(c);
      OccurrencesOnlyLast(Clause(c), '?');
      ClauseHasNoComma(c);
      AppendClausesText(query + Clause(c), assignments[1..]);
    }
  }

  lemma PrefixHasNoPlaceholder()
    ensures '?' !in UpdatePrefix
  {
  }

  lemma SuffixShape()
    ensures UpdateSuffix[|UpdateSuffix| - 1] == '?' && '?' !in UpdateSuffix[..|UpdateSuffix| - 1]
  {
  }

  /** The fixed text of the query holds one placeholder, the id's in the suffix. */
  lemma FixedTextPlaceholders()
    ensures Occurrences(UpdatePrefix, '?') == 0 && Occurrences(UpdateSuffix, '?') == 1
  {
    PrefixHasNoPlaceholder();
    OccurrencesAbsent(UpdatePrefix, '?');
    SuffixShape();
    OccurrencesOnlyLast(UpdateSuffix, '?');
  }

  lemma FixedTextHasNoComma()
    ensures ',' !in UpdatePrefix && ',' !in UpdateSuffix
  {
  }

  /**
    The query has one more `?` than there are bound arguments: the id
    placeholder of the `WHERE` clause is never bound.
   */
  lemma UpdatePlaceholdersOutnumberArgs(update: HostUpdate)
    ensures Occurrences(UpdateQuery(update), '?') == |UpdateArgs(update)| + 1
    ensures |UpdateArgs(update)| == PresentCount(update)
  {
    var assignments := Assignments(update);
    QueryPlaceholders(assignments);
    assert UpdateQuery(update) == AppendClauses(UpdatePrefix, assignments) + UpdateSuffix;
  }

  lemma QueryPlaceholders(assignments: seq<Assignment>)
    ensures Occurrences(AppendClauses(UpdatePrefix, assignments) + UpdateSuffix, '?') == |assignments| + 1
  {
    FixedTextPlaceholders();
    AppendClausesText(UpdatePrefix, assignments);
    OccurrencesAppend(AppendClauses(UpdatePrefix, assignments), UpdateSuffix, '?');
  }

  /** The clauses are never separated by commas, so two or more present fields make invalid SQL. */
  lemma UpdateQueryHasNoComma(update: HostUpdate)
    ensures ',' !in UpdateQuery(update)
  {
    FixedTextHasNoComma();
    AppendClausesText(UpdatePrefix, Assignments(update));
  }

  /** With no field present the query reads `UPDATE hosts SET WHERE id = ?` and binds nothing. */
  lemma EmptyUpdate()
    ensures UpdateQuery(HostUpdate(None, None, None)) == "UPDATE hosts SET WHERE id = ?"
    ensures UpdateArgs(HostUpdate(None, None, None)) == []
  {
  }

  /** With every field present the three clauses run together. */
  lemma FullUpdate(name: string, ipAddress: string, macAddress: string)
    ensures UpdateQuery(HostUpdate(Some(name), Some(ipAddress), Some(macAddress))) ==
      UpdatePrefix + " name = ?" + " ip_address = ?" + " mac_address = ?" + UpdateSuffix
    ensures UpdateArgs(HostUpdate(Some(name), Some(ipAddress), Some(macAddress))) ==
      [Str(name), Str(ipAddress), Str(macAddress)]
  {
    var update := HostUpdate(Some(name), Some(ipAddress), Some(macAddress));
    var n, i := Entry(NameColumn, update.name), Entry(IpAddressColumn, update.ipAddress);
    AppendClausesAppend(UpdatePrefix, n + i, Entry(MacAddressColumn, update.macAddress));
    AppendClausesAppend(UpdatePrefix, n, i);
    AppendEntry(UpdatePrefix, NameColumn, update.name);
    AppendEntry(AppendClauses(UpdatePrefix, n), IpAddressColumn, update.ipAddress);
    AppendEntry(AppendClauses(UpdatePrefix, n + i), MacAddressColumn, update.macAddress);
  }

  // ---------------------------------------------------------------------
  // The operations of `impl Host`

  /** The query-and-arguments builder of `Host::update`, appending step by step. */
  method BuildUpdate(update: HostUpdate) returns (query: string, args: seq<Arg>)
    ensures query == UpdateQuery(update)
    ensures args == UpdateArgs(update)
  {
    var n, i, m := Entry(NameColumn, update.name), Entry(IpAddressColumn, update.ipAddress),
      Entry(MacAddressColumn, update.macAddress);
    AppendClausesAppend(UpdatePrefix, n + i, m);
    AppendClausesAppend(UpdatePrefix, n, i);

    query := "UPDATE hosts SET";
    args := [];

    if update.name.Some? {
      query := query + " name = ?";
      args := args + [Str(update.name.value)];
    }
    AppendEntry(UpdatePrefix, NameColumn, update.name);
    assert query == AppendClauses(UpdatePrefix, n);

    if update.ipAddress.Some? {
      query := query + " ip_address = ?";
      args := args + [Str(update.ipAddress.value)];
    }
    AppendEntry(AppendClauses(UpdatePrefix, n), IpAddressColumn, update.ipAddress);
    assert query == AppendClauses(UpdatePrefix, n + i);

    if update.macAddress.Some? {
      query := query + " mac_address = ?";
      args := args + [Str(update.macAddress.value)];
    }
    AppendEntry(AppendClauses(UpdatePrefix, n + i), MacAddressColumn, update.macAddress);
    assert query == AppendClauses(UpdatePrefix, n + i + m);

    query := query + " WHERE id = ?";
  }

  /** `Host::get_by_id`: one `fetch_one` of the row with that id. */
  method GetById(db: Db, id: i32) returns (r: Result<Host, Error>)
    modifies db
    ensures db.served == old(db.served) + [FetchOne(Query(SelectById, [Int(id)]))]
    ensures r == db.fetchHost(old(db.served), Query(SelectById, [Int(id)]))
  {
    r := db.FetchOneHost(Query(SelectById, [Int(id)]));
  }

  /** `Host::create`: insert, then return the arguments verbatim with the id the engine reported. */
  method Create(db: Db, name: string, ipAddress: string, macAddress: string) returns (r: Result<Host, Error>)
    modifies db
    ensures var insert := Query(InsertHost, [Str(name), Str(ipAddress), Str(macAddress)]);
      var answer := db.fetchId(old(db.served), insert);
      db.served == old(db.served) + [FetchOne(insert)] &&
      r == (if answer.Ok? then Ok(Host(answer.value, name, ipAddress, macAddress)) else Err(answer.error))
  {
    var answer := db.FetchOneId(Query(InsertHost, [Str(name), Str(ipAddress), Str(macAddress)]));
    match answer {
      case Err(e) => return Err(e);
      case Ok(id) => return Ok(Host(id, name, ipAddress, macAddress));
    }
  }

  /**
    `Host::update`: execute the built query; an engine error propagates, zero
    affected rows is an error without a second request, and otherwise the
    result is whatever re-reading the row by id gives.
   */
  method Update(db: Db, id: i32, update: HostUpdate) returns (r: Result<Host, Error>)
    modifies db
    ensures var statement := Query(UpdateQuery(update), UpdateArgs(update));
      var count := db.execute(old(db.served), statement);
      var reread := Query(SelectById, [Int(id)]);
      if count.Err? then
        r == Err(count.error) && db.served == old(db.served) + [Execute(statement)]
      else if count.value == 0 then
        r == Err(Message(UpdateFailed)) && db.served == old(db.served) + [Execute(statement)]
      else
        r == db.fetchHost(old(db.served) + [Execute(statement)], reread) &&
        db.served == old(db.served) + [Execute(statement), FetchOne(reread)]
  {
    var query, args := BuildUpdate(update);
    var count := db.Execute(Query(query, args));
    if count.Err? {
      return Err(count.error);
    }
    if count.value == 0 {
      return Err(Message(UpdateFailed));
    }
    r := GetById(db, id);
  }

  /** `Host::delete`: succeeds whether or not a row matched; only an engine error propagates. */
  method Delete(db: Db, id: i32) returns (r: Result<(), Error>)
    modifies db
    ensures var statement := Query(DeleteById, [Int(id)]);
      var answer := db.execute(old(db.served), statement);
      db.served == old(db.served) + [Execute(statement)] &&
      r == (if answer.Ok? then Ok(()) else Err(answer.error))
  {
    var answer := db.Execute(Query(DeleteById, [Int(id)]));
    if answer.Err? {
      return Err(answer.error);
    }
    r := Ok(());
  }
}
