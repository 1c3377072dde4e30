/** The product list back-end model: its configuration (login requirement, whether
    users may add lists, the predefined list templates), the record table it searches
    and writes, and its operations. Each method is proved to compute the matching
    function of `Operations`; what the operations promise is proved there. */
module ProductList {
  import opened Outcomes
  import opened JsValues
  import opened Text
  import opened SortOrder
  import opened Listing
  import opened Records
  import opened Operations

  // One step of each loop, for the loop invariants.

  lemma RowsStep(rs: seq<Record>, i: nat, texts: Texts)
    requires i < |rs|
    ensures Rows(rs[..i + 1], texts) == Rows(rs[..i], texts) + [RowEntry(rs[i], texts)]
  {
    var a := Rows(rs[..i + 1], texts);
    var b := Rows(rs[..i], texts) + [RowEntry(rs[i], texts)];
    assert forall j :: 0 <= j < i ==> rs[..i + 1][j] == rs[..i][j];
    assert |a| == |b|;
  }

  lemma TemplateIdsStep(lists: seq<Entry>, e: Entry)
    ensures TemplateIds(lists + [e]) == TemplateIds(lists) + (if Truthy(e.templateId) then [e.templateId] else [])
  {
    assert (lists + [e])[..|lists|] == lists;
  }

  lemma TemplateStep(ts: seq<Entry>, i: nat, ids: seq<Value>, current: seq<Entry>)
    requires i < |ts| && current == Completed(ts[..i], ids) + ts[i..]
    ensures Eligible(ts[i], ids) ==> current[i := WithDefaults(ts[i])] == Completed(ts[..i + 1], ids) + ts[i + 1..]
    ensures !Eligible(ts[i], ids) ==> current == Completed(ts[..i + 1], ids) + ts[i + 1..]
    ensures Synthesized(ts[..i + 1], ids) ==
      Synthesized(ts[..i], ids) + (if Eligible(ts[i], ids) then [WithDefaults(ts[i])] else [])
  {
    assert ts[..i + 1][..i] == ts[..i];
    assert ts[i..] == [ts[i]] + ts[i + 1..];
  }

  class Model {
    const loginRequired: bool
    const additionEnabled: bool
    /** The configured list templates, changed in place by `Search` and by the
        special-type fallback. */
    var listTemplates: Option<seq<Entry>>
    const store: RecordStore

    constructor (loginRequired: bool, additionEnabled: bool, listTemplates: Option<seq<Entry>>, store: RecordStore)
      ensures this.loginRequired == loginRequired && this.additionEnabled == additionEnabled
      ensures this.listTemplates == listTemplates && this.store == store
    {
      this.loginRequired := loginRequired;
      this.additionEnabled := additionEnabled;
      this.listTemplates := listTemplates;
      this.store := store;
    }

    /** The session gate: Unauthorized exactly when login is required and the shopper
        is not logged in. */
    function VerifySession(loggedIn: bool): (o: Outcome)
      ensures o == Pass <==> !SessionRefused(loginRequired, loggedIn)
      ensures o != Pass ==> o == Fail(Unauthorized)
    {
      if loginRequired && !loggedIn then Fail(Unauthorized) else Pass
    }

    /** One search of the table: the rows the query matches, in table order and shown as
        the listing shows them; with `collect`, their non-empty template ids; and the
        sort the order token asks for. */
    method SearchHelper(q: Query, order: string, collect: bool) returns (lists: seq<Entry>, ids: seq<Value>, sort: ColumnSort)
      ensures lists == Rows(Matching(store.records, q), store.texts)
      ensures ids == if collect then TemplateIds(lists) else []
      ensures sort == ColumnSortOf(order)
    {
      sort := ColumnSortOf(order);
      var found := Matching(store.records, q);
      lists := [];
      ids := [];
      var i := 0;
      while i < |found|
        invariant 0 <= i <= |found|
        invariant lists == Rows(found[..i], store.texts)
        invariant ids == if collect then TemplateIds(lists) else []
      {
        var entry := RowEntry(found[i], store.texts);
        if collect && Truthy(entry.templateId) {
          ids := ids + [entry.templateId];
        }
        TemplateIdsStep(lists, entry);
        RowsStep(found, i, store.texts);
        lists := lists + [entry];
        i := i + 1;
      }
      assert found[..|found|] == found;
    }

    /** The user's active list with this id. */
    method Get(user: int, id: nat, loggedIn: bool) returns (r: Result<Entry>)
      ensures r == GetResult(store.records, store.texts, user, id, SessionRefused(loginRequired, loggedIn))
    {
      var gate := VerifySession(loggedIn);
      if gate.Fail? {
        return Failure(gate.error);
      }
      var lists, _, _ := SearchHelper(Query(user, Some(id), None), "", false);
      if |lists| >= 1 {
        return Success(lists[0]);
      }
      return Failure(NotFound);
    }

    /** The user's list of a special type, or else the first template of that type,
        whose missing scope and description are filled in place. */
    method GetSpecialTypeProductList(user: int, typeId: string, loggedIn: bool) returns (r: Result<Entry>)
      modifies this
      ensures (r, listTemplates) ==
        SpecialResult(store.records, store.texts, old(listTemplates), user, typeId, SessionRefused(loginRequired, loggedIn))
    {
      var gate := VerifySession(loggedIn);
      if gate.Fail? {
        return Failure(gate.error);
      }
      var lists, _, _ := SearchHelper(Query(user, None, Some(typeId)), "", false);
      if |lists| >= 1 {
        return Success(lists[0]);
      }
      if listTemplates.None? {
        return Failure(NotFound);
      }
      var k := FirstOfType(listTemplates.value, typeId);
      if k.None? {
        return Failure(NotFound);
      }
      var template := listTemplates.value[k.value];
      if template.scope.None? {
        template := template.(scope := Some(ScopeRef(Str(typeId), Str("private"))));
      }
      if !Truthy(template.description) {
        template := template.(description := Str(""));
      }
      listTemplates := Some(listTemplates.value[k.value := template]);
      return Success(template);
    }

    method GetSavedForLaterProductList(user: int, loggedIn: bool) returns (r: Result<Entry>)
      modifies this
      ensures (r, listTemplates) ==
        SpecialResult(store.records, store.texts, old(listTemplates), user, LaterTypeId, SessionRefused(loginRequired, loggedIn))
    {
      r := GetSpecialTypeProductList(user, LaterTypeId, loggedIn);
    }

    method GetRequestAQuoteProductList(user: int, loggedIn: bool) returns (r: Result<Entry>)
      modifies this
      ensures (r, listTemplates) ==
        SpecialResult(store.records, store.texts, old(listTemplates), user, QuoteTypeId, SessionRefused(loginRequired, loggedIn))
    {
      r := GetSpecialTypeProductList(user, QuoteTypeId, loggedIn);
    }

    /** All lists of the user, followed by the predefined templates the user has no list
        for, which are completed in place; then narrowed as the single-list setting says.
        There is no session check. */
    method Search(user: int, order: string) returns (result: seq<Entry>)
      modifies this
      ensures (result, listTemplates) ==
        SearchResult(store.records, store.texts, old(listTemplates), additionEnabled, user)
    {
      var lists, ids, _ := SearchHelper(Query(user, None, None), order, true);
      lists := AddMissingTemplates(lists, ids);
      result := Visible(IsSingleList(additionEnabled, listTemplates), lists);
    }

    /** The template loop of the listing: appends to `lists` each configured template
        whose id is not in `ids`, completing it in the configuration. */
    method AddMissingTemplates(lists: seq<Entry>, ids: seq<Value>) returns (merged: seq<Entry>)
      modifies this
      ensures listTemplates == if old(listTemplates).Some? then Some(Completed(old(listTemplates).value, ids)) else None
      ensures merged == lists + if old(listTemplates).Some? then Synthesized(old(listTemplates).value, ids) else []
    {
      merged := lists;
      if listTemplates.None? {
        assert merged == lists + [];
        return;
      }
      var ts := listTemplates.value;
      ghost var current := ts;
      var i := 0;
      assert ts[..0] == [] && ts[0..] == ts && merged == lists + [];
      assert Completed([], ids) + ts == ts;
      while i < |ts|
        invariant 0 <= i <= |ts|
        invariant listTemplates == Some(current)
        invariant current == Completed(ts[..i], ids) + ts[i..]
        invariant merged == lists + Synthesized(ts[..i], ids)
      {
        TemplateStep(ts, i, ids, current);
        ghost var earlier := Synthesized(ts[..i], ids);
        var template, appended := CompleteTemplate(ts[i], ids);
        if appended {
          listTemplates := Some(listTemplates.value[i := template]);
          current := listTemplates.value;
          assert merged + [template] == lists + (earlier + [template]);
          merged := merged + [template];
        } else {
          assert earlier + [] == earlier;
        }
        i := i + 1;
      }
      assert ts[..|ts|] == ts && ts[|ts|..] == [];
      assert Completed(ts, ids) + [] == Completed(ts, ids);
    }

    /** The listing's step for one configured template: one the user has no list for,
        with an id and a name, is completed with the defaults and appended; one without
        an id or a name is logged and skipped. */
    static method CompleteTemplate(template: Entry, ids: seq<Value>) returns (t: Entry, appended: bool)
      ensures appended == Eligible(template, ids)
      ensures t == if appended then WithDefaults(template) else template
    {
      t := template;
      appended := false;
      if t.templateId !in ids {
        if Truthy(t.templateId) && Truthy(t.name) {
          if !Truthy(t.scopeId) {
            t := t.(scopeId := Str("2"), scopeName := Str("private"));
          }
          if !Truthy(t.description) {
            t := t.(description := Str(""));
          }
          if !Truthy(t.typeId) {
            t := t.(typeId := Str("3"), typeName := Str("predefined"));
          }
          t := t.(scopeId := AsString(t.scopeId));
          appended := true;
        }
      }
    }

    /** A new list owned by the user, with the supplied fields; returns its id. */
    method Create(user: int, data: Input, loggedIn: bool) returns (r: Result<nat>)
      requires store.Valid()
      modifies store
      ensures store.Valid()
      ensures store.nextId == if r.Success? then old(store.nextId) + 1 else old(store.nextId)
      ensures (r, store.records) ==
        CreateResult(old(store.records), old(store.nextId), user, data, SessionRefused(loginRequired, loggedIn))
    {
      var gate := VerifySession(loggedIn);
      if gate.Fail? {
        return Failure(gate.error);
      }
      var record := Record(0, "", false, "", "", "", "", "");
      if data.templateId != "" {
        record := record.(templateId := data.templateId);
      }
      if data.scopeId != "" {
        record := record.(scopeId := data.scopeId);
      }
      if data.typeId != "" {
        record := record.(typeId := data.typeId);
      }
      if data.name != "" {
        record := record.(name := Sanitize(data.name));
      }
      if data.description != "" {
        record := record.(description := Sanitize(data.description));
      }
      record := record.(owner := IntToString(user));
      var id := store.Insert(record);
      return Success(id);
    }

    /** Overwrites the supplied fields of the user's list with this id. */
    method Update(user: int, id: nat, data: Input, loggedIn: bool) returns (o: Outcome)
      requires store.Valid()
      modifies store
      ensures store.Valid() && store.nextId == old(store.nextId)
      ensures (o, store.records) ==
        UpdateResult(old(store.records), user, id, data, SessionRefused(loginRequired, loggedIn))
    {
      var gate := VerifySession(loggedIn);
      if gate.Fail? {
        return gate;
      }
      var loaded := store.Load(id);
      if loaded.Failure? {
        return Fail(loaded.error);
      }
      var record := loaded.value;
      if ParseInt(record.owner) != Some(user) {
        return Fail(Unauthorized);
      }
      if data.templateId != "" {
        record := record.(templateId := data.templateId);
      }
      if data.scopeId != "" {
        record := record.(scopeId := data.scopeId);
      }
      if data.typeId != "" {
        record := record.(typeId := data.typeId);
      }
      if data.name != "" {
        record := record.(name := Sanitize(data.name));
      }
      record := record.(description := if data.description != "" then Sanitize(data.description) else "");
      var _ := store.Put(record);
      return Pass;
    }

    /** Marks the user's list with this id inactive; returns its id. */
    method Delete(user: int, id: nat, loggedIn: bool) returns (r: Result<nat>)
      requires store.Valid()
      modifies store
      ensures store.Valid() && store.nextId == old(store.nextId)
      ensures (r, store.records) ==
        DeleteResult(old(store.records), user, id, SessionRefused(loginRequired, loggedIn))
    {
      var gate := VerifySession(loggedIn);
      if gate.Fail? {
        return Failure(gate.error);
      }
      var loaded := store.Load(id);
      if loaded.Failure? {
        return Failure(loaded.error);
      }
      var record := loaded.value;
      if ParseInt(record.owner) != Some(user) {
        return Failure(Unauthorized);
      }
      record := record.(inactive := true);
      var internalid := store.Put(record);
      return Success(internalid);
    }
  }
}
