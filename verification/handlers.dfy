/**
 * What the service handlers decide. Requests arrive already decoded (an id
 * parameter that failed to parse is None, a body that failed to decode is
 * None), and each handler returns the responses it writes, in order, as
 * kinds rather than HTTP.
 */
module Api {
  import opened Errors
  import opened Store
  import opened Ordering
  import opened Listing
  import opened Validation
  import opened Data

  datatype Response<+B> =
    | BadRequest
    | NotFound
    | Conflict
    | ServerError
    | ValidationFailed(errors: map<string, string>)
    | Ok(body: B)

  /** The body of POST: title and description. */
  datatype NewService = NewService(title: string, description: string)

  /** The body of PATCH: a field left out (nil) keeps its stored value. */
  datatype Patch = Patch(title: Option<string>, description: Option<string>)

  /** The query-string values of a listing request; None where absent. */
  datatype ListQuery = ListQuery(title: Option<string>, page: Option<int>, pageSize: Option<int>, sort: Option<string>)

  /** The sort keys a listing accepts. */
  const SortSafelist: seq<string> := ["id", "title", "-id", "-title"]

  /** The message the delete handler sends back on success. */
  const DeletedMessage: string := "service successfully deleted"

  /** How show, delete and the Get step of update answer a repository error. */
  function LookupFailure<B>(e: Error): (r: Response<B>)
    ensures r.NotFound? <==> e.RecordNotFound?
    ensures r.NotFound? || r.ServerError?
  {
    match e
    case RecordNotFound => NotFound
    case _ => ServerError
  }

  /** How update answers an error of the Update step. */
  function UpdateFailure<B>(e: Error): (r: Response<B>)
    ensures r.Conflict? <==> e.EditConflict?
    ensures r.Conflict? || r.ServerError?
  {
    match e
    case EditConflict => Conflict
    case _ => ServerError
  }

  /** The stored record with the fields the patch carries laid over it. */
  function Merged(r: Record, p: Patch): (m: Record)
    ensures m.id == r.id && m.version == r.version
    ensures p.title.None? ==> m.title == r.title
    ensures p.title.Some? ==> m.title == p.title.value
    ensures p.description.None? ==> m.description == r.description
    ensures p.description.Some? ==> m.description == p.description.value
  {
    r.(title := p.title.GetOr(r.title), description := p.description.GetOr(r.description))
  }

  /** Merging is idempotent, and the empty patch leaves the record as it was. */
  lemma MergeIdempotent(r: Record, p: Patch)
    ensures Merged(Merged(r, p), p) == Merged(r, p)
    ensures Merged(r, Patch(None, None)) == r
  {
  }

  /** The filters of a listing: the given values, or page 1, page size 20 and sort "id". */
  function ListFilters(q: ListQuery): (f: Filters)
    ensures f.sortSafelist == ["id", "title", "-id", "-title"]
    ensures q.page.None? ==> f.page == 1
    ensures q.pageSize.None? ==> f.pageSize == 20
    ensures q.sort.None? ==> f.sort == "id" && f.sort in f.sortSafelist
    ensures q.page.Some? ==> f.page == q.page.value
    ensures q.pageSize.Some? ==> f.pageSize == q.pageSize.value
    ensures q.sort.Some? ==> f.sort == q.sort.value
  {
    Filters(q.page.GetOr(1), q.pageSize.GetOr(20), q.sort.GetOr("id"), SortSafelist)
  }

  /**
   * createServiceHandler. An Insert failure writes a server error and the
   * handler goes on to write the created response as well, for the record
   * as it stands (id and version still 0).
   */
  method CreateService(model: ServiceModel, input: Option<NewService>, fault: Option<string>)
    returns (written: seq<Response<Record>>)
    requires model.Valid()
    modifies model`rows, model`nextId
    ensures model.Valid()
    ensures input.None? ==> written == [BadRequest] && model.rows == old(model.rows) && model.nextId == old(model.nextId)
    ensures input.Some? ==>
      var errors := ServiceViolations(input.value.title, input.value.description);
      && (errors != map[] ==>
            written == [ValidationFailed(errors)] && model.rows == old(model.rows) && model.nextId == old(model.nextId))
      && (errors == map[] && fault.Some? ==>
            && written == [ServerError, Ok(Record(0, input.value.title, input.value.description, 0))]
            && written[1].body.id !in model.rows
            && model.rows == old(model.rows) && model.nextId == old(model.nextId))
      && (errors == map[] && fault.None? ==>
            && |written| == 1 && written[0].Ok?
            && var r := written[0].body;
               && r == Record(r.id, input.value.title, input.value.description, 1)
               && 1 <= r.id && r.id !in old(model.rows)
               && model.rows == old(model.rows)[r.id := r])
  {
    if input.None? {
      return [BadRequest];
    }
    var service := new Service(0, input.value.title, input.value.description, 0);
    var v := new Validator();
    ValidateService(v, service);
    assert v.errors == ServiceViolations(service.title, service.description);
    if !v.Valid() {
      return [ValidationFailed(v.errors)];
    }
    written := [];
    var err := model.Insert(service, fault);
    if err.Fail? {
      written := written + [ServerError];
    }
    written := written + [Ok(service.Snapshot())];
  }

  /**
   * createServiceHandler with the `return` after the server error that the
   * other handlers have: every request gets exactly one response, and a
   * created response always shows the row that was stored.
   */
  method CreateServiceCorrected(model: ServiceModel, input: Option<NewService>, fault: Option<string>)
    returns (written: seq<Response<Record>>)
    requires model.Valid()
    modifies model`rows, model`nextId
    ensures model.Valid()
    ensures |written| == 1
    ensures written[0].Ok? ==> written[0].body.id in model.rows && model.rows[written[0].body.id] == written[0].body
    ensures input.None? ==> written == [BadRequest] && model.rows == old(model.rows) && model.nextId == old(model.nextId)
    ensures input.Some? ==>
      var errors := ServiceViolations(input.value.title, input.value.description);
      && (errors != map[] ==>
            written == [ValidationFailed(errors)] && model.rows == old(model.rows) && model.nextId == old(model.nextId))
      && (errors == map[] && fault.Some? ==>
            written == [ServerError] && model.rows == old(model.rows) && model.nextId == old(model.nextId))
      && (errors == map[] && fault.None? ==>
            && written[0].Ok?
            && var r := written[0].body;
               && r == Record(r.id, input.value.title, input.value.description, 1)
               && 1 <= r.id && r.id !in old(model.rows)
               && model.rows == old(model.rows)[r.id := r])
  {
    if input.None? {
      return [BadRequest];
    }
    var service := new Service(0, input.value.title, input.value.description, 0);
    var v := new Validator();
    ValidateService(v, service);
    assert v.errors == ServiceViolations(service.title, service.description);
    if !v.Valid() {
      return [ValidationFailed(v.errors)];
    }
    var err := model.Insert(service, fault);
    if err.Fail? {
      return [ServerError];
    }
    return [Ok(service.Snapshot())];
  }

  /** showServiceHandler. */
  method ShowService(model: ServiceModel, idParam: Option<int>, fault: Option<string>)
    returns (written: seq<Response<Record>>)
    requires model.Valid()
    ensures idParam.None? ==> written == [NotFound]
    ensures idParam.Some? && idParam.value < 1 ==> written == [NotFound]
    ensures idParam.Some? && 1 <= idParam.value && fault.Some? ==> written == [ServerError]
    ensures idParam.Some? && 1 <= idParam.value && fault.None? ==>
      written == if idParam.value in model.rows then [Ok(model.rows[idParam.value])] else [NotFound]
  {
    if idParam.None? {
      return [NotFound];
    }
    var r := model.Get(idParam.value, fault);
    if r.Failure? {
      return [LookupFailure(r.error)];
    }
    return [Ok(r.value.Snapshot())];
  }

  /**
   * updateServiceHandler up to the call of Update: the id, Get, the body,
   * the merge into the fetched record and its validation. Either it has
   * answered (`early`), or it hands over the merged record to commit.
   */
  method BeginUpdate(model: ServiceModel, idParam: Option<int>, input: Option<Patch>, fault: Option<string>)
    returns (early: seq<Response<Record>>, service: Service?)
    requires model.Valid()
    ensures early == [] <==> service != null
    ensures idParam.None? ==> early == [NotFound]
    ensures idParam.Some? ==>
      var id := idParam.value;
      if id < 1 then early == [NotFound]
      else if fault.Some? then early == [ServerError]
      else if id !in model.rows then early == [NotFound]
      else if input.None? then early == [BadRequest]
      else
        var m := Merged(model.rows[id], input.value);
        var errors := ServiceViolations(m.title, m.description);
        if errors != map[] then early == [ValidationFailed(errors)]
        else service != null && fresh(service) && service.Snapshot() == m
  {
    if idParam.None? {
      return [NotFound], null;
    }
    var r := model.Get(idParam.value, fault);
    if r.Failure? {
      return [LookupFailure(r.error)], null;
    }
    var s := r.value;
    if input.None? {
      return [BadRequest], null;
    }
    if input.value.title.Some? {
      s.title := input.value.title.value;
    }
    if input.value.description.Some? {
      s.description := input.value.description.value;
    }
    var v := new Validator();
    ValidateService(v, s);
    assert v.errors == ServiceViolations(s.title, s.description);
    if !v.Valid() {
      return [ValidationFailed(v.errors)], null;
    }
    return [], s;
  }

  /** updateServiceHandler from the call of Update on: commit, then answer. */
  method CommitUpdate(model: ServiceModel, service: Service, fault: Option<string>)
    returns (written: seq<Response<Record>>)
    requires model.Valid()
    modifies model`rows, service`version
    ensures model.Valid()
    ensures fault.Some? ==>
      written == [ServerError] && model.rows == old(model.rows) && service.version == old(service.version)
    ensures fault.None? && service.id in old(model.rows) && old(model.rows)[service.id].version == old(service.version) ==>
      && service.version == old(service.version) + 1
      && model.rows == old(model.rows)[service.id := service.Snapshot()]
      && written == [Ok(service.Snapshot())]
    ensures fault.None? && !(service.id in old(model.rows) && old(model.rows)[service.id].version == old(service.version)) ==>
      written == [Conflict] && model.rows == old(model.rows) && service.version == old(service.version)
  {
    var err := model.Update(service, fault);
    if err.Fail? {
      return [UpdateFailure(err.error)];
    }
    return [Ok(service.Snapshot())];
  }

  /**
   * updateServiceHandler as one request with nothing running beside it:
   * Update is reached only after a successful Get, merge and validation.
   */
  method UpdateService(model: ServiceModel, idParam: Option<int>, input: Option<Patch>,
                       getFault: Option<string>, updateFault: Option<string>)
    returns (written: seq<Response<Record>>)
    requires model.Valid()
    modifies model`rows
    ensures model.Valid()
    ensures idParam.None? ==> written == [NotFound] && model.rows == old(model.rows)
    ensures idParam.Some? ==>
      var id := idParam.value;
      var t := old(model.rows);
      if id < 1 then written == [NotFound] && model.rows == t
      else if getFault.Some? then written == [ServerError] && model.rows == t
      else if id !in t then written == [NotFound] && model.rows == t
      else if input.None? then written == [BadRequest] && model.rows == t
      else
        var m := Merged(t[id], input.value);
        var errors := ServiceViolations(m.title, m.description);
        if errors != map[] then written == [ValidationFailed(errors)] && model.rows == t
        else if updateFault.Some? then written == [ServerError] && model.rows == t
        else
          var committed := m.(version := m.version + 1);
          written == [Ok(committed)] && model.rows == t[id := committed]
  {
    var early, service := BeginUpdate(model, idParam, input, getFault);
    if service == null {
      return early;
    }
    written := CommitUpdate(model, service, updateFault);
  }

  /** deleteServiceHandler. */
  method DeleteService(model: ServiceModel, idParam: Option<int>, fault: Option<string>)
    returns (written: seq<Response<string>>)
    requires model.Valid()
    modifies model`rows
    ensures model.Valid()
    ensures idParam.None? ==> written == [NotFound] && model.rows == old(model.rows)
    ensures idParam.Some? ==>
      var id := idParam.value;
      if id < 1 then written == [NotFound] && model.rows == old(model.rows)
      else if fault.Some? then written == [ServerError] && model.rows == old(model.rows)
      else
        && written == (if id in old(model.rows) then [Ok(DeletedMessage)] else [NotFound])
        && model.rows == old(model.rows) - {id}
  {
    if idParam.None? {
      return [NotFound];
    }
    var err := model.Delete(idParam.value, fault);
    if err.Fail? {
      return [LookupFailure(err.error)];
    }
    return [Ok(DeletedMessage)];
  }

  /**
   * listServiceHandler: the defaults and the allow-list, the filter
   * validation, then GetAll.
   */
  method ListServices<M(==)>(model: ServiceModel, query: ListQuery, ops: FilterOps,
                             calculateMetadata: (int, int, int) -> M,
                             matches: (string, string) -> bool, less: (string, string) -> bool,
                             fault: Option<string>)
    returns (written: seq<Response<Page<M>>>)
    requires model.Valid()
    ensures var f := ListFilters(query);
            var errors := ops.validate(f);
            && (errors != map[] ==> written == [ValidationFailed(errors)])
            && (errors == map[] && fault.Some? ==> written == [ServerError])
            && (errors == map[] && fault.None? ==>
                  var all := Ordered(model.rows, model.nextId, query.title.GetOr(""), matches, KeyOf(ops, f), less);
                  var services := Window(all, ops.offset(f), ops.limit(f));
                  written == [Ok(Page(services, calculateMetadata(if services == [] then 0 else |all|, f.page, f.pageSize)))])
  {
    var title := query.title.GetOr("");
    var filters := ListFilters(query);
    var errors := ops.validate(filters);
    if errors != map[] {
      return [ValidationFailed(errors)];
    }
    var r := model.GetAll(title, filters, ops, calculateMetadata, matches, less, fault);
    if r.Failure? {
      return [ServerError];
    }
    return [Ok(r.value)];
  }

  /**
   * Two PATCH requests for the same service, each fetching it before either
   * commits: the first commits with version + 1, the second, still carrying
   * the old version, gets Conflict, and the first one's values stay.
   */
  method RacingUpdates(model: ServiceModel, id: int, first: Patch, second: Patch)
    returns (a: seq<Response<Record>>, b: seq<Response<Record>>)
    requires model.Valid() && 1 <= id && id in model.rows
    requires var m := Merged(model.rows[id], first); ServiceViolations(m.title, m.description) == map[]
    requires var m := Merged(model.rows[id], second); ServiceViolations(m.title, m.description) == map[]
    modifies model`rows
    ensures var committed := Merged(old(model.rows)[id], first).(version := old(model.rows)[id].version + 1);
            && a == [Ok(committed)]
            && b == [Conflict]
            && model.rows == old(model.rows)[id := committed]
  {
    var early1, s1 := BeginUpdate(model, Some(id), Some(first), None);
    var early2, s2 := BeginUpdate(model, Some(id), Some(second), None);
    a := CommitUpdate(model, s1, None);
    b := CommitUpdate(model, s2, None);
  }
}
