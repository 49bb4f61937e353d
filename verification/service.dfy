/**
 * The service record and its repository, ServiceModel, over the table of
 * the Store module. Each repository method takes a `fault` argument that
 * stands for the store call failing (timeout, lost connection, ...): Some
 * makes the call fail with that reason and leaves the table unchanged.
 */
module Data {
  import opened Errors
  import opened Store
  import opened Ordering
  import opened Listing
  import opened Validation

  /** The number of bytes the UTF-8 encoding of c takes. */
  function Utf8Width(c: char): (n: nat)
    ensures 1 <= n <= 4
    ensures n == 1 <==> c as int < 0x80
  {
    if c as int < 0x80 then 1
    else if c as int < 0x800 then 2
    else if c as int < 0x1_0000 then 3
    else 4
  }

  /** len(s) in Go: the length of s in bytes, as UTF-8. */
  function Utf8Length(s: string): (n: nat)
    ensures |s| <= n <= 4 * |s|
    ensures n == |s| <==> forall i :: 0 <= i < |s| ==> s[i] as int < 0x80
  {
    if s == [] then 0 else Utf8Width(s[0]) + Utf8Length(s[1..])
  }

  /**
   * The messages ValidateService records, by field, when it starts from an
   * empty validator: the four checks in their order.
   */
  function ServiceViolations(title: string, description: string): (errors: map<string, string>)
    ensures errors.Keys <= {"title", "description"}
    ensures "title" in errors <==> title == "" || Utf8Length(title) > 200
    ensures "title" in errors ==>
      errors["title"] == if title == "" then "must be provided" else "must not be more than 200 bytes long"
    ensures "description" in errors <==> description == "" || Utf8Length(description) > 2000
    ensures "description" in errors ==>
      errors["description"] == if description == "" then "must be provided" else "must not be more than 2000 bytes long"
  {
    var e0 := map[];
    var e1 := Recorded(e0, title != "", "title", "must be provided");
    var e2 := Recorded(e1, Utf8Length(title) <= 200, "title", "must not be more than 200 bytes long");
    var e3 := Recorded(e2, description != "", "description", "must be provided");
    Recorded(e3, Utf8Length(description) <= 2000, "description", "must not be more than 2000 bytes long")
  }

  /** A record passes validation exactly when both fields are present and within their byte limits. */
  lemma ServiceValidIff(title: string, description: string)
    ensures ServiceViolations(title, description) == map[] <==>
      title != "" && Utf8Length(title) <= 200 && description != "" && Utf8Length(description) <= 2000
  {
    var errors := ServiceViolations(title, description);
    if title == "" || Utf8Length(title) > 200 {
      assert "title" in errors;
    } else if description == "" || Utf8Length(description) > 2000 {
      assert "description" in errors;
    } else {
      assert errors.Keys == {};
    }
  }

  /** The Go Service struct: the handlers and the repository update its fields in place. */
  class Service {
    var id: int
    var title: string
    var description: string
    var version: int

    constructor (id: int, title: string, description: string, version: int)
      ensures Snapshot() == Record(id, title, description, version)
    {
      this.id := id;
      this.title := title;
      this.description := description;
      this.version := version;
    }

    /** The current field values, as a row. */
    function Snapshot(): Record
      reads this
    {
      Record(id, title, description, version)
    }
  }

  /**
   * ValidateService: the four checks on the title and the description,
   * recorded into the given validator.
   */
  method ValidateService(v: Validator, service: Service)
    modifies v
    ensures v.errors == ServiceViolations(service.title, service.description) + old(v.errors)
  {
    ghost var e := v.errors;
    ghost var d: map<string, string> := map[];
    assert v.errors == d + e;
    RecordedOnTop(e, d, service.title != "", "title", "must be provided");
    v.Check(service.title != "", "title", "must be provided");
    d := Recorded(d, service.title != "", "title", "must be provided");
    RecordedOnTop(e, d, Utf8Length(service.title) <= 200, "title", "must not be more than 200 bytes long");
    v.Check(Utf8Length(service.title) <= 200, "title", "must not be more than 200 bytes long");
    d := Recorded(d, Utf8Length(service.title) <= 200, "title", "must not be more than 200 bytes long");
    RecordedOnTop(e, d, service.description != "", "description", "must be provided");
    v.Check(service.description != "", "description", "must be provided");
    d := Recorded(d, service.description != "", "description", "must be provided");
    RecordedOnTop(e, d, Utf8Length(service.description) <= 2000, "description", "must not be more than 2000 bytes long");
    v.Check(Utf8Length(service.description) <= 2000, "description", "must not be more than 2000 bytes long");
  }

  /**
   * Checks made on top of earlier errors e record what they would record on
   * their own, except that e's messages win.
   */
  lemma RecordedOnTop(e: map<string, string>, d: map<string, string>, ok: bool, key: string, message: string)
    ensures Recorded(d + e, ok, key, message) == Recorded(d, ok, key, message) + e
  {
  }

  /** The listing filters the handler fills in; their helpers live elsewhere. */
  datatype Filters = Filters(page: int, pageSize: int, sort: string, sortSafelist: seq<string>)

  /**
   * The helpers of Filters that are not part of this model, as functions
   * supplied by the caller: ValidateFilters (the errors it records into a
   * fresh validator), sortColumn, sortOrder, limit and offset.
   */
  datatype FilterOps = FilterOps(
    validate: Filters -> map<string, string>,
    sortColumn: Filters -> Column,
    sortOrder: Filters -> Direction,
    limit: Filters -> nat,
    offset: Filters -> nat)

  /** The services of one listing page and the metadata computed for it. */
  datatype Page<M> = Page(services: seq<Record>, metadata: M)

  /** The sort key the listing query orders by. */
  function KeyOf(ops: FilterOps, filters: Filters): SortKey {
    SortKey(ops.sortColumn(filters), ops.sortOrder(filters))
  }

  /**
   * The scan loop of GetAll: reads the result set row by row, collecting each
   * row's service and overwriting the total with the row's window count, so
   * that the total stays 0 when the result set is empty.
   */
  method ScanRows(resultSet: seq<ResultRow>) returns (services: seq<Record>, totalRecords: int)
    ensures |services| == |resultSet|
    ensures forall j :: 0 <= j < |resultSet| ==> services[j] == resultSet[j].record
    ensures totalRecords == if resultSet == [] then 0 else resultSet[|resultSet| - 1].total
  {
    totalRecords := 0;
    services := [];
    var i := 0;
    while i < |resultSet|
      invariant 0 <= i <= |resultSet|
      invariant |services| == i && forall j :: 0 <= j < i ==> services[j] == resultSet[j].record
      invariant totalRecords == if i == 0 then 0 else resultSet[i - 1].total
    {
      totalRecords := resultSet[i].total;
      services := services + [resultSet[i].record];
      i := i + 1;
    }
  }

  /** ServiceModel: the repository over the services table and its id sequence. */
  class ServiceModel {
    var rows: Table
    var nextId: int

    ghost predicate Valid()
      reads this
    {
      WellFormed(rows, nextId)
    }

    /** Wraps a store whose table and id sequence are given. */
    constructor (rows: Table, nextId: int)
      requires WellFormed(rows, nextId)
      ensures Valid() && this.rows == rows && this.nextId == nextId
    {
      this.rows := rows;
      this.nextId := nextId;
    }

    /**
     * Insert: one new row with the record's title and description; the
     * store's id and version are written back into the record.
     */
    method Insert(service: Service, fault: Option<string>) returns (err: Outcome)
      requires Valid()
      modifies this`rows, this`nextId, service`id, service`version
      ensures Valid()
      ensures service.title == old(service.title) && service.description == old(service.description)
      ensures fault.Some? ==>
        && err == Fail(OtherError(fault.value))
        && rows == old(rows) && nextId == old(nextId)
        && service.id == old(service.id) && service.version == old(service.version)
      ensures fault.None? ==>
        && err == Pass
        && 1 <= service.id && service.id !in old(rows) && service.version == 1
        && rows == old(rows)[service.id := service.Snapshot()]
    {
      if fault.Some? {
        return Fail(OtherError(fault.value));
      }
      var w := InsertRow(rows, nextId, service.title, service.description);
      rows, nextId := w.table, w.nextId;
      service.id, service.version := w.id, w.version;
      return Pass;
    }

    /**
     * Get: ids below 1 are refused before any store call, so a store fault
     * cannot change that answer; a missing row is RecordNotFound; a present
     * row comes back as a new record with the stored values.
     */
    method Get(id: int, fault: Option<string>) returns (r: Result<Service>)
      requires Valid()
      ensures id < 1 ==> r == Failure(RecordNotFound)
      ensures 1 <= id && fault.Some? ==> r == Failure(OtherError(fault.value))
      ensures 1 <= id && fault.None? && id !in rows ==> r == Failure(RecordNotFound)
      ensures 1 <= id && fault.None? && id in rows ==>
        r.Success? && fresh(r.value) && r.value.Snapshot() == rows[id]
    {
      if id < 1 {
        return Failure(RecordNotFound);
      }
      if fault.Some? {
        return Failure(OtherError(fault.value));
      }
      if id !in rows {
        return Failure(RecordNotFound);
      }
      var row := rows[id];
      var service := new Service(row.id, row.title, row.description, row.version);
      return Success(service);
    }

    /**
     * Update: the compare-and-swap on (id, version). It succeeds exactly when
     * the row exists with the record's version; then the row takes the new
     * title and description and version + 1, which is written back into the
     * record. Otherwise it is EditConflict, whether the row is gone or its
     * version moved on, and nothing changes.
     */
    method Update(service: Service, fault: Option<string>) returns (err: Outcome)
      requires Valid()
      modifies this`rows, service`version
      ensures Valid()
      ensures fault.Some? ==>
        && err == Fail(OtherError(fault.value))
        && rows == old(rows) && service.version == old(service.version)
      ensures fault.None? ==>
        (err == Pass <==> service.id in old(rows) && old(rows)[service.id].version == old(service.version))
      ensures fault.None? && err == Pass ==>
        && service.version == old(service.version) + 1
        && rows == old(rows)[service.id := service.Snapshot()]
      ensures fault.None? && err != Pass ==>
        && err == Fail(EditConflict)
        && rows == old(rows) && service.version == old(service.version)
    {
      if fault.Some? {
        return Fail(OtherError(fault.value));
      }
      var w := UpdateRow(rows, service.id, service.version, service.title, service.description);
      if w.returned.None? {
        return Fail(EditConflict);
      }
      UpdateRowKeepsWellFormed(rows, nextId, service.id, service.version, service.title, service.description);
      rows := w.table;
      service.version := w.returned.value;
      return Pass;
    }

    /**
     * Delete: ids below 1 are refused before any store call; otherwise the
     * row is removed, and zero affected rows means RecordNotFound.
     */
    method Delete(id: int, fault: Option<string>) returns (err: Outcome)
      requires Valid()
      modifies this`rows
      ensures Valid()
      ensures id < 1 ==> err == Fail(RecordNotFound) && rows == old(rows)
      ensures 1 <= id && fault.Some? ==> err == Fail(OtherError(fault.value)) && rows == old(rows)
      ensures 1 <= id && fault.None? ==>
        && (err == Pass <==> id in old(rows))
        && (err != Pass ==> err == Fail(RecordNotFound))
        && rows == old(rows) - {id}
    {
      if id < 1 {
        return Fail(RecordNotFound);
      }
      if fault.Some? {
        return Fail(OtherError(fault.value));
      }
      var w := DeleteRow(rows, id);
      rows := w.table;
      if w.affected == 0 {
        return Fail(RecordNotFound);
      }
      return Pass;
    }

    /**
     * GetAll: runs the listing query and reads its result set row by row,
     * collecting the services and overwriting totalRecords with each row's
     * window count, so that the total stays 0 when no row comes back.
     */
    method GetAll<M(==)>(title: string, filters: Filters, ops: FilterOps, calculateMetadata: (int, int, int) -> M,
                         matches: (string, string) -> bool, less: (string, string) -> bool, fault: Option<string>)
      returns (r: Result<Page<M>>)
      requires Valid()
      ensures fault.Some? ==> r == Failure(OtherError(fault.value))
      ensures fault.None? ==>
        var all := Ordered(rows, nextId, title, matches, KeyOf(ops, filters), less);
        var services := Window(all, ops.offset(filters), ops.limit(filters));
        r == Success(Page(services, calculateMetadata(if services == [] then 0 else |all|, filters.page, filters.pageSize)))
    {
      if fault.Some? {
        return Failure(OtherError(fault.value));
      }
      var resultSet := SelectPage(rows, nextId, title, matches, KeyOf(ops, filters), less, ops.limit(filters), ops.offset(filters));
      var services, totalRecords := ScanRows(resultSet);
      ghost var all := Ordered(rows, nextId, title, matches, KeyOf(ops, filters), less);
      ghost var page := Window(all, ops.offset(filters), ops.limit(filters));
      assert services == page;
      assert totalRecords == if page == [] then 0 else |all|;
      var metadata := calculateMetadata(totalRecords, filters.page, filters.pageSize);
      return Success(Page(services, metadata));
    }
  }

  /**
   * Insert followed by Get on the id Insert wrote back: when the store does
   * not fail, the service reads back with the given title and description
   * and version 1, and the table holds that row besides the earlier ones.
   */
  method InsertThenGet(model: ServiceModel, title: string, description: string)
    returns (inserted: Service, fetched: Result<Service>)
    requires model.Valid()
    modifies model`rows, model`nextId
    ensures model.Valid()
    ensures 1 <= inserted.id && inserted.id !in old(model.rows)
    ensures fetched.Success? && fetched.value.Snapshot() == Record(inserted.id, title, description, 1)
    ensures model.rows == old(model.rows)[inserted.id := Record(inserted.id, title, description, 1)]
  {
    inserted := new Service(0, title, description, 0);
    var err := model.Insert(inserted, None);
    fetched := model.Get(inserted.id, None);
  }
}
