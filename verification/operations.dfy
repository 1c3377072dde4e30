/** What each operation of the product list model returns and leaves behind, as
    functions of the record table, the configuration templates and the request. The
    methods of `ProductList.Model` are proved to compute exactly these; the lemmas
    here state what the operations promise. */
module Operations {
  import opened Outcomes
  import opened JsValues
  import opened Text
  import opened SeqUtil
  import opened Listing
  import opened Records
  import SortOrder

  /** The session gate refuses when login is required and nobody is logged in. */
  predicate SessionRefused(loginRequired: bool, loggedIn: bool) {
    loginRequired && !loggedIn
  }

  // ----- get -----

  function GetResult(rs: seq<Record>, texts: Texts, user: int, id: nat, refused: bool): Result<Entry> {
    if refused then Failure(Unauthorized)
    else
      var m := Matching(rs, Query(user, Some(id), None));
      if |m| >= 1 then Success(RowEntry(m[0], texts)) else Failure(NotFound)
  }

  /** `get` finds the stored record with that id exactly when it is active and owned by
      the user; records of other users and inactive ones give NotFound. */
  lemma GetFindsOwnedActive(rs: seq<Record>, texts: Texts, user: int, id: nat)
    requires UniqueIds(rs)
    ensures GetResult(rs, texts, user, id, false) ==
      match IndexOfId(rs, id)
      case None => Failure(NotFound)
      case Some(k) =>
        if !rs[k].inactive && OwnedBy(rs[k], user) then Success(RowEntry(rs[k], texts))
        else Failure(NotFound)
  {
    ByIdMatching(rs, user, id);
  }

  // ----- special-type lists -----

  predicate OfType(t: Entry, typeId: string) {
    Truthy(t.typeId) && t.typeId == Str(typeId)
  }

  /** The first configured template of the given type. */
  function FirstOfType(ts: seq<Entry>, typeId: string): (k: Option<nat>)
    ensures k.Some? ==> k.value < |ts| && OfType(ts[k.value], typeId) &&
                        forall j :: 0 <= j < k.value ==> !OfType(ts[j], typeId)
    ensures k.None? ==> forall j :: 0 <= j < |ts| ==> !OfType(ts[j], typeId)
    decreases |ts|
  {
    if ts == [] then None
    else if OfType(ts[0], typeId) then Some(0)
    else
      var k := FirstOfType(ts[1..], typeId);
      if k.None? then None else Some(k.value + 1)
  }

  /** The fallback fills a missing scope with the type id and `private`, and a missing
      description with `''`. */
  function WithScope(t: Entry, typeId: string): (r: Entry)
    ensures r.typeId == t.typeId && r.templateId == t.templateId && r.name == t.name
    ensures r.scope == (if t.scope.None? then Some(ScopeRef(Str(typeId), Str("private"))) else t.scope)
    ensures r.description == (if Truthy(t.description) then t.description else Str(""))
  {
    var t1 := if t.scope.None? then t.(scope := Some(ScopeRef(Str(typeId), Str("private")))) else t;
    if !Truthy(t1.description) then t1.(description := Str("")) else t1
  }

  function SpecialResult(rs: seq<Record>, texts: Texts, templates: Option<seq<Entry>>,
                         user: int, typeId: string, refused: bool): (Result<Entry>, Option<seq<Entry>>)
  {
    if refused then (Failure(Unauthorized), templates)
    else
      var m := Matching(rs, Query(user, None, Some(typeId)));
      if |m| >= 1 then (Success(RowEntry(m[0], texts)), templates)
      else if templates.None? then (Failure(NotFound), templates)
      else
        var ts := templates.value;
        match FirstOfType(ts, typeId)
        case None => (Failure(NotFound), templates)
        case Some(k) =>
          var t := WithScope(ts[k], typeId);
          (Success(t), Some(ts[k := t]))
  }

  /** The special-type lookup returns a list of the requested type: the first owned,
      active stored row of that type, or else the first template of that type, with
      its scope set. NotFound comes only when neither exists. */
  lemma SpecialResultSpec(rs: seq<Record>, texts: Texts, templates: Option<seq<Entry>>,
                          user: int, typeId: string)
    ensures var (r, _) := SpecialResult(rs, texts, templates, user, typeId, false);
      var m := Matching(rs, Query(user, None, Some(typeId)));
      && (r.Success? ==> r.value.typeId == Str(typeId))
      && (m != [] ==> r == Success(RowEntry(m[0], texts)) && m[0] in rs && Matches(m[0], Query(user, None, Some(typeId))))
      && (m == [] && r.Success? ==>
            && r.value.scope.Some? && templates.Some?
            && (exists i :: 0 <= i < |templates.value| && OfType(templates.value[i], typeId) &&
                            r.value.templateId == templates.value[i].templateId))
      && (r == Failure(NotFound) <==>
            m == [] && (templates.None? || forall i :: 0 <= i < |templates.value| ==> !OfType(templates.value[i], typeId)))
  {
    var m := Matching(rs, Query(user, None, Some(typeId)));
    MatchingSpec(rs, Query(user, None, Some(typeId)));
    if m != [] {
      assert m[0] in m;
    }
  }

  /** The fallback's scope reuses the type id as its scope id. */
  lemma ScopeFallbackUsesTypeId(t: Entry, typeId: string)
    requires t.scope.None?
    ensures WithScope(t, typeId).scope == Some(ScopeRef(Str(typeId), Str("private")))
  {
  }

  /** Changing the chosen template in place is stable: asking again with the changed
      configuration gives the same list and changes nothing further. */
  lemma SpecialResultStable(rs: seq<Record>, texts: Texts, templates: Option<seq<Entry>>,
                            user: int, typeId: string)
    ensures var (r, ts) := SpecialResult(rs, texts, templates, user, typeId, false);
      SpecialResult(rs, texts, ts, user, typeId, false) == (r, ts)
  {
    var (r, ts) := SpecialResult(rs, texts, templates, user, typeId, false);
    if Matching(rs, Query(user, None, Some(typeId))) == [] && templates.Some? {
      var k := FirstOfType(templates.value, typeId);
      if k.Some? {
        var t := WithScope(templates.value[k.value], typeId);
        var ts' := templates.value[k.value := t];
        assert forall j :: 0 <= j < k.value ==> ts'[j] == templates.value[j];
        assert OfType(ts'[k.value], typeId);
        assert FirstOfType(ts', typeId) == k;
        assert WithScope(t, typeId) == t;
        assert ts'[k.value := t] == ts';
      }
    }
  }

  // ----- search -----

  /** The stored rows of the user followed by the missing predefined templates. */
  function Merged(rs: seq<Record>, texts: Texts, templates: Option<seq<Entry>>, user: int): seq<Entry> {
    var rows := Rows(Matching(rs, Query(user, None, None)), texts);
    rows + (if templates.Some? then Synthesized(templates.value, TemplateIds(rows)) else [])
  }

  /** The configuration after the listing loop. */
  function CompletedTemplates(rs: seq<Record>, texts: Texts, templates: Option<seq<Entry>>, user: int): Option<seq<Entry>> {
    var rows := Rows(Matching(rs, Query(user, None, None)), texts);
    if templates.Some? then Some(Completed(templates.value, TemplateIds(rows))) else None
  }

  function SearchResult(rs: seq<Record>, texts: Texts, templates: Option<seq<Entry>>,
                        additionEnabled: bool, user: int): (seq<Entry>, Option<seq<Entry>>)
  {
    var ts := CompletedTemplates(rs, texts, templates, user);
    (Visible(IsSingleList(additionEnabled, ts), Merged(rs, texts, templates, user)), ts)
  }

  /** The merged list keeps every stored row of the user in table order and then holds
      exactly the completed eligible templates, in configuration order. */
  lemma MergedSpec(rs: seq<Record>, texts: Texts, templates: Option<seq<Entry>>, user: int)
    ensures var rows := Rows(Matching(rs, Query(user, None, None)), texts);
      var merged := Merged(rs, texts, templates, user);
      && merged[..|rows|] == rows
      && (forall e :: e in merged[|rows|..] <==>
            templates.Some? &&
            (exists i :: 0 <= i < |templates.value| &&
                         Eligible(templates.value[i], TemplateIds(rows)) && e == WithDefaults(templates.value[i])))
  {
    var rows := Rows(Matching(rs, Query(user, None, None)), texts);
    var merged := Merged(rs, texts, templates, user);
    assert merged[|rows|..] == if templates.Some? then Synthesized(templates.value, TemplateIds(rows)) else [];
    if templates.Some? {
      forall e ensures e in merged[|rows|..] <==>
          (exists i :: 0 <= i < |templates.value| &&
                       Eligible(templates.value[i], TemplateIds(rows)) && e == WithDefaults(templates.value[i]))
      {
        SynthesizedMembers(templates.value, TemplateIds(rows), e);
      }
    }
  }

  /** The listing is an order-preserving selection of the merged list: in single-list
      mode exactly its predefined entries, otherwise exactly those that are neither
      saved-for-later nor request-a-quote lists. */
  lemma SearchResultSpec(rs: seq<Record>, texts: Texts, templates: Option<seq<Entry>>,
                         additionEnabled: bool, user: int)
    ensures var (lists, ts) := SearchResult(rs, texts, templates, additionEnabled, user);
      var merged := Merged(rs, texts, templates, user);
      && IsSubsequence(lists, merged)
      && (IsSingleList(additionEnabled, templates) ==>
            forall e :: e in lists <==> e in merged && e.typeName == Str("predefined"))
      && (!IsSingleList(additionEnabled, templates) ==>
            forall e :: e in lists <==> e in merged && e.typeId != Str(LaterTypeId) && e.typeId != Str(QuoteTypeId))
  {
    var rows := Rows(Matching(rs, Query(user, None, None)), texts);
    if templates.Some? {
      CompletedKeepsOrdinaryCount(templates.value, TemplateIds(rows));
    }
    var ts := CompletedTemplates(rs, texts, templates, user);
    assert IsSingleList(additionEnabled, ts) == IsSingleList(additionEnabled, templates);
    VisibleSpec(IsSingleList(additionEnabled, ts), Merged(rs, texts, templates, user));
  }

  /** The in-place completion of the configuration does not change later listings: a
      second search over the changed configuration lists the same entries and changes
      the configuration no further. */
  lemma SearchResultStable(rs: seq<Record>, texts: Texts, templates: Option<seq<Entry>>,
                           additionEnabled: bool, user: int)
    ensures var (lists, ts) := SearchResult(rs, texts, templates, additionEnabled, user);
      SearchResult(rs, texts, ts, additionEnabled, user) == (lists, ts)
  {
    var rows := Rows(Matching(rs, Query(user, None, None)), texts);
    if templates.Some? {
      CompletedStable(templates.value, TemplateIds(rows));
    }
  }

  /** With no stored list and two templates, one of them lacking an id, the listing
      holds one entry: the valid template, completed. */
  lemma SearchSkipsTemplateWithoutId(texts: Texts, user: int, named: Entry, unnamed: Entry)
    requires named.templateId == Str("1") && named.name == Str("My list") && !Truthy(named.typeId)
    requires unnamed.templateId == Undefined && unnamed.name == Str("Orphan")
    ensures SearchResult([], texts, Some([named, unnamed]), true, user).0 == [WithDefaults(named)]
  {
    var ts := [named, unnamed];
    assert Rows(Matching([], Query(user, None, None)), texts) == [];
    assert TemplateIds([]) == [];
    assert ts[..1] == [named] && [named][..0] == [];
    assert Eligible(named, []) && !Eligible(unnamed, []);
    assert Synthesized([named], []) == [WithDefaults(named)];
    assert Synthesized(ts, []) == [WithDefaults(named)];
    var w := WithDefaults(named);
    assert w.typeId == Str("3");
    assert Visible(false, [w]) == [w] by {
      assert [w][..0] == [];
    }
  }

  /** `search` as written: the order token is applied before anything is searched,
      and an order naming an inherited property throws a TypeError there, before the
      configuration is changed. The model object's search applies the corrected sort,
      under which every order gives `SearchResult`. */
  function SearchAsWritten(rs: seq<Record>, texts: Texts, templates: Option<seq<Entry>>,
                           additionEnabled: bool, user: int, order: string): (Result<seq<Entry>>, Option<seq<Entry>>)
  {
    if SortOrder.ColumnSortAsWritten(order) == SortOrder.Throws then (Failure(TypeError), templates)
    else
      var (lists, ts) := SearchResult(rs, texts, templates, additionEnabled, user);
      (Success(lists), ts)
  }

  /** As written, `search` with the order `toString:ASC` throws and changes nothing. */
  lemma SearchAsWrittenThrows(rs: seq<Record>, texts: Texts, templates: Option<seq<Entry>>,
                              additionEnabled: bool, user: int)
    ensures SearchAsWritten(rs, texts, templates, additionEnabled, user, "toString:ASC") == (Failure(TypeError), templates)
  {
    SortOrder.ColumnSortAsWrittenThrows();
  }

  /** As written, `search` throws exactly for an order whose column is an inherited
      property name, and otherwise returns the listing of the corrected search. */
  lemma SearchAsWrittenAgrees(rs: seq<Record>, texts: Texts, templates: Option<seq<Entry>>,
                              additionEnabled: bool, user: int, order: string)
    ensures var (r, ts) := SearchAsWritten(rs, texts, templates, additionEnabled, user, order);
      && (r.Failure? <==> SortOrder.ParseOrder(order).column in SortOrder.PrototypeKeys)
      && (r.Failure? ==> r.error == TypeError && ts == templates)
      && (r.Success? ==> (r.value, ts) == SearchResult(rs, texts, templates, additionEnabled, user))
  {
  }

  // ----- create, update, delete -----

  function CreateResult(rs: seq<Record>, nextId: nat, user: int, data: Input, refused: bool): (Result<nat>, seq<Record>) {
    if refused then (Failure(Unauthorized), rs)
    else (Success(nextId), rs + [Created(nextId, user, data)])
  }

  function UpdateResult(rs: seq<Record>, user: int, id: nat, data: Input, refused: bool): (Outcome, seq<Record>) {
    if refused then (Fail(Unauthorized), rs)
    else
      match IndexOfId(rs, id)
      case None => (Fail(LoadFailed), rs)
      case Some(k) =>
        if !OwnedBy(rs[k], user) then (Fail(Unauthorized), rs)
        else (Pass, rs[k := Updated(rs[k], data)])
  }

  function DeleteResult(rs: seq<Record>, user: int, id: nat, refused: bool): (Result<nat>, seq<Record>) {
    if refused then (Failure(Unauthorized), rs)
    else
      match IndexOfId(rs, id)
      case None => (Failure(LoadFailed), rs)
      case Some(k) =>
        if !OwnedBy(rs[k], user) then (Failure(Unauthorized), rs)
        else (Success(id), rs[k := Deactivated(rs[k])])
  }

  /** Ids stay unique when a new id is appended or a stored record is replaced by one
      with the same id. */
  lemma UniqueIdsAppend(rs: seq<Record>, r: Record)
    requires UniqueIds(rs) && forall i :: 0 <= i < |rs| ==> rs[i].id != r.id
    ensures UniqueIds(rs + [r])
  {
  }

  lemma UniqueIdsReplace(rs: seq<Record>, k: nat, r: Record)
    requires UniqueIds(rs) && k < |rs| && r.id == rs[k].id
    ensures UniqueIds(rs[k := r])
  {
    var rs' := rs[k := r];
    forall i, j | 0 <= i < |rs'| && 0 <= j < |rs'| && rs'[i].id == rs'[j].id ensures i == j {
      assert rs'[i].id == rs[i].id && rs'[j].id == rs[j].id;
    }
  }

  /** Replacing records by ones with the same ids keeps where each id is stored. */
  lemma {:induction false} IndexOfIdSameIds(rs: seq<Record>, rs': seq<Record>, id: nat)
    requires |rs'| == |rs| && forall i :: 0 <= i < |rs| ==> rs'[i].id == rs[i].id
    ensures IndexOfId(rs', id) == IndexOfId(rs, id)
    decreases |rs|
  {
    if rs != [] && rs[|rs| - 1].id != id {
      IndexOfIdSameIds(rs[..|rs| - 1], rs'[..|rs| - 1], id);
    }
  }

  /** Whether `get` finds a list depends only on where its id is stored and on that
      record's owner and inactive flag. */
  lemma GetSuccessIff(rs: seq<Record>, texts: Texts, user: int, id: nat)
    requires UniqueIds(rs)
    ensures GetResult(rs, texts, user, id, false).Success? <==>
      IndexOfId(rs, id).Some? && !rs[IndexOfId(rs, id).value].inactive && OwnedBy(rs[IndexOfId(rs, id).value], user)
  {
    GetFindsOwnedActive(rs, texts, user, id);
  }

  /** A created list is found by its creator under the returned id, and by nobody else. */
  lemma CreatedVisibleToCreator(rs: seq<Record>, nextId: nat, texts: Texts, user: int, other: int, data: Input)
    requires UniqueIds(rs) && forall i :: 0 <= i < |rs| ==> rs[i].id < nextId
    requires other != user
    ensures var (r, rs') := CreateResult(rs, nextId, user, data, false);
      && r == Success(nextId)
      && GetResult(rs', texts, user, nextId, false) == Success(RowEntry(Created(nextId, user, data), texts))
      && GetResult(rs', texts, other, nextId, false) == Failure(NotFound)
  {
    var c := Created(nextId, user, data);
    var rs' := rs + [c];
    UniqueIdsAppend(rs, c);
    assert IndexOfId(rs', nextId) == Some(|rs|);
    GetFindsOwnedActive(rs', texts, user, nextId);
    GetFindsOwnedActive(rs', texts, other, nextId);
  }

  /** `update` succeeds exactly on a record that exists and that the user owns; any
      failure leaves the table unchanged. */
  lemma UpdateRequiresOwnership(rs: seq<Record>, user: int, id: nat, data: Input)
    ensures var (o, rs') := UpdateResult(rs, user, id, data, false);
      && (o == Pass <==> exists k :: 0 <= k < |rs| && rs[k].id == id && OwnedBy(rs[IndexOfId(rs, id).value], user))
      && (o != Pass ==> rs' == rs)
  {
  }

  /** A successful update changes one record only, keeps its id, owner and inactive
      flag, and so neither hides nor reveals any list: `get` finds the same ids for every
      user as before, now with the updated fields. */
  lemma UpdateKeepsVisibility(rs: seq<Record>, texts: Texts, user: int, id: nat, data: Input, asker: int, probe: nat)
    requires UniqueIds(rs)
    requires UpdateResult(rs, user, id, data, false).0 == Pass
    ensures var rs' := UpdateResult(rs, user, id, data, false).1;
      var k := IndexOfId(rs, id).value;
      && |rs'| == |rs| && rs'[k] == Updated(rs[k], data)
      && (forall i :: 0 <= i < |rs| && i != k ==> rs'[i] == rs[i])
      && GetResult(rs', texts, asker, probe, false).Success? == GetResult(rs, texts, asker, probe, false).Success?
  {
    var k := IndexOfId(rs, id).value;
    GetAfterReplace(rs, k, Updated(rs[k], data), texts, asker, probe);
    if probe == id {
      GetSuccessIff(rs, texts, asker, probe);
    }
  }

  /** Replacing the stored record at `k` by one with the same id changes what `get`
      finds for that id only, and there as the new record's owner and flag say. */
  lemma GetAfterReplace(rs: seq<Record>, k: nat, r: Record, texts: Texts, asker: int, probe: nat)
    requires UniqueIds(rs) && k < |rs| && r.id == rs[k].id
    ensures var found := GetResult(rs[k := r], texts, asker, probe, false).Success?;
      && (probe == r.id ==> found == (!r.inactive && OwnedBy(r, asker)))
      && (probe != r.id ==> found == GetResult(rs, texts, asker, probe, false).Success?)
  {
    var rs' := rs[k := r];
    UniqueIdsReplace(rs, k, r);
    IndexOfIdSameIds(rs, rs', probe);
    GetSuccessIff(rs', texts, asker, probe);
    if probe != r.id {
      GetSuccessIff(rs, texts, asker, probe);
    }
  }

  /** After `delete` the list is still stored, inactive, and `get` no longer finds it
      for anyone; no other record changes. */
  lemma DeleteHides(rs: seq<Record>, texts: Texts, user: int, id: nat, asker: int)
    requires UniqueIds(rs)
    requires DeleteResult(rs, user, id, false).0.Success?
    ensures var (r, rs') := DeleteResult(rs, user, id, false);
      var k := IndexOfId(rs, id).value;
      && r == Success(id)
      && |rs'| == |rs| && rs'[k] == Deactivated(rs[k])
      && (forall i :: 0 <= i < |rs| && i != k ==> rs'[i] == rs[i])
      && GetResult(rs', texts, asker, id, false) == Failure(NotFound)
  {
    var k := IndexOfId(rs, id).value;
    GetAfterReplace(rs, k, Deactivated(rs[k]), texts, asker, id);
  }

  /** Deleting twice leaves the table as deleting once. */
  lemma DeleteIdempotent(rs: seq<Record>, user: int, id: nat)
    requires DeleteResult(rs, user, id, false).0.Success?
    ensures var rs' := DeleteResult(rs, user, id, false).1;
      DeleteResult(rs', user, id, false) == (Success(id), rs')
  {
    var k := IndexOfId(rs, id).value;
    var rs' := rs[k := Deactivated(rs[k])];
    IndexOfIdSameIds(rs, rs', id);
    assert rs'[k := Deactivated(rs'[k])] == rs';
  }

  /** A refused session raises Unauthorized from every gated operation and changes
      neither the table nor the configuration. */
  lemma RefusedSessionChangesNothing(rs: seq<Record>, nextId: nat, texts: Texts, templates: Option<seq<Entry>>,
                                     user: int, id: nat, typeId: string, data: Input)
    ensures GetResult(rs, texts, user, id, true) == Failure(Unauthorized)
    ensures SpecialResult(rs, texts, templates, user, typeId, true) == (Failure(Unauthorized), templates)
    ensures CreateResult(rs, nextId, user, data, true) == (Failure(Unauthorized), rs)
    ensures UpdateResult(rs, user, id, data, true) == (Fail(Unauthorized), rs)
    ensures DeleteResult(rs, user, id, true) == (Failure(Unauthorized), rs)
  {
  }

  /** A description written by `update` reads back through `get` with its line breaks
      as `<br>`; submitting what was read leaves the stored description unchanged. */
  lemma UpdatedDescriptionRoundTrip(r: Record, data: Input, texts: Texts)
    ensures var u := Updated(r, data);
      && RowEntry(u, texts).description == Str(Display(Sanitize(data.description)))
      && Updated(u, data.(description := Display(u.description))).description == u.description
  {
    DescriptionRewriteStable(data.description);
  }
}
