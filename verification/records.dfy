/** The product list record table that the platform's record and search services
    stand for, with the queries the model runs against it and the record changes its
    mutations submit. */
module Records {
  import opened Outcomes
  import opened JsValues
  import opened Text
  import opened SeqUtil
  import opened Listing

  /** One stored product list. Text fields hold the stored value, `""` when unset;
      `owner` is the stored owner field, the acting user's id written as a string. */
  datatype Record = Record(
    id: nat, owner: string, inactive: bool,
    templateId: string, scopeId: string, typeId: string,
    name: string, description: string)

  /** The filters of one search: always the active rows owned by `owner`, optionally
      narrowed to one record id or one type id. */
  datatype Query = Query(owner: int, id: Option<nat>, typeId: Option<string>)

  /** The ownership test: the owner field read as a base-10 integer equals the user. */
  predicate OwnedBy(r: Record, user: int) {
    ParseInt(r.owner) == Some(user)
  }

  predicate Matches(r: Record, q: Query) {
    && !r.inactive
    && OwnedBy(r, q.owner)
    && (q.id.Some? ==> r.id == q.id.value)
    && (q.typeId.Some? ==> r.typeId == q.typeId.value)
  }

  /** The rows a search returns, in table order. */
  function Matching(rs: seq<Record>, q: Query): (m: seq<Record>)
    ensures |m| <= |rs|
  {
    if rs == [] then []
    else
      var r := rs[|rs| - 1];
      Matching(rs[..|rs| - 1], q) + (if Matches(r, q) then [r] else [])
  }

  /** A search returns exactly the matching rows, in the order of the table. */
  lemma {:induction false} MatchingSpec(rs: seq<Record>, q: Query)
    ensures IsSubsequence(Matching(rs, q), rs)
    ensures forall r :: r in Matching(rs, q) <==> r in rs && Matches(r, q)
    decreases |rs|
  {
    if rs != [] {
      var init := rs[..|rs| - 1];
      var r := rs[|rs| - 1];
      MatchingSpec(init, q);
      assert rs == init + [r];
      SubsequenceExtend(Matching(init, q), init, r);
      assert forall x :: x in rs <==> x in init || x == r;
      if !Matches(r, q) {
        assert Matching(rs, q) == Matching(init, q) + [];
        assert Matching(init, q) + [] == Matching(init, q);
      }
    }
  }

  lemma {:induction false} MatchingAppend(a: seq<Record>, b: seq<Record>, q: Query)
    ensures Matching(a + b, q) == Matching(a, q) + Matching(b, q)
    decreases |b|
  {
    if b == [] {
      assert a + b == a;
    } else {
      var b' := b[..|b| - 1];
      assert (a + b)[..|a + b| - 1] == a + b';
      assert (a + b)[|a + b| - 1] == b[|b| - 1];
      MatchingAppend(a, b', q);
    }
  }

  /** The first row of a search is the first matching row of the table. */
  lemma {:induction false} MatchingFirst(rs: seq<Record>, q: Query)
    requires Matching(rs, q) != []
    ensures exists i :: (0 <= i < |rs| && Matching(rs, q)[0] == rs[i] && Matches(rs[i], q) &&
      forall j :: 0 <= j < i ==> !Matches(rs[j], q))
    decreases |rs|
  {
    var init := rs[..|rs| - 1];
    assert forall j :: 0 <= j < |init| ==> init[j] == rs[j];
    if Matching(init, q) == [] {
      MatchingSpec(init, q);
      var i := |rs| - 1;
      assert forall j :: 0 <= j < i ==> init[j] in init;
    } else {
      MatchingFirst(init, q);
    }
  }

  /** Every record id occurs at most once in the table. */
  ghost predicate UniqueIds(rs: seq<Record>) {
    forall i, j :: 0 <= i < |rs| && 0 <= j < |rs| && rs[i].id == rs[j].id ==> i == j
  }

  /** Where the record with this id is stored (`nlapiLoadRecord`), if anywhere. */
  function IndexOfId(rs: seq<Record>, id: nat): (k: Option<nat>)
    ensures k.Some? ==> k.value < |rs| && rs[k.value].id == id
    ensures k.None? ==> forall i :: 0 <= i < |rs| ==> rs[i].id != id
  {
    if rs == [] then None
    else if rs[|rs| - 1].id == id then Some(|rs| - 1)
    else IndexOfId(rs[..|rs| - 1], id)
  }

  /** A search by id finds the stored record with that id when it is active and owned
      by the user, and nothing otherwise. */
  lemma ByIdMatching(rs: seq<Record>, user: int, id: nat)
    requires UniqueIds(rs)
    ensures var m := Matching(rs, Query(user, Some(id), None));
      match IndexOfId(rs, id)
      case None => m == []
      case Some(k) => m == if !rs[k].inactive && OwnedBy(rs[k], user) then [rs[k]] else []
  {
    var q := Query(user, Some(id), None);
    var k := IndexOfId(rs, id);
    if k.None? {
      MatchingNone(rs, q);
    } else {
      assert forall j :: 0 <= j < |rs| && j != k.value ==> rs[j].id != id;
      MatchingOnly(rs, k.value, q);
    }
  }

  /** When at most the record at `i` can match, the search returns it or nothing. */
  lemma MatchingOnly(rs: seq<Record>, i: nat, q: Query)
    requires i < |rs|
    requires forall j :: 0 <= j < |rs| && j != i ==> !Matches(rs[j], q)
    ensures Matching(rs, q) == if Matches(rs[i], q) then [rs[i]] else []
  {
    var pre, post := rs[..i], rs[i + 1..];
    assert rs == pre + [rs[i]] + post;
    assert forall r :: r in pre ==> !Matches(r, q);
    assert forall r :: r in post ==> !Matches(r, q);
    MatchingAppend(pre + [rs[i]], post, q);
    MatchingAppend(pre, [rs[i]], q);
    MatchingNone(pre, q);
    MatchingNone(post, q);
    assert Matching([rs[i]], q) == Matching([], q) + (if Matches(rs[i], q) then [rs[i]] else []);
  }

  lemma MatchingNone(rs: seq<Record>, q: Query)
    requires forall r :: r in rs ==> !Matches(r, q)
    ensures Matching(rs, q) == []
  {
    MatchingSpec(rs, q);
  }

  /** The display names the search returns beside the stored values (`getText`). */
  datatype Texts = Texts(ownerName: string -> string, scopeName: string -> string, typeName: string -> string)

  /** One search row as the listing shows it. The description is shown with its line
      breaks as `<br>`; everything else is passed through. */
  function RowEntry(r: Record, texts: Texts): (e: Entry)
    ensures e.templateId == Str(r.templateId) && e.typeId == Str(r.typeId)
    ensures e.description == Str(Display(r.description))
    ensures e.internalid == Str(IntToString(r.id))
  {
    Entry(
      internalid := Str(IntToString(r.id)),
      templateId := Str(r.templateId),
      name := Str(r.name),
      description := Str(Display(r.description)),
      ownerId := Str(r.owner),
      ownerName := Str(texts.ownerName(r.owner)),
      scopeId := Str(r.scopeId),
      scopeName := Str(texts.scopeName(r.scopeId)),
      typeId := Str(r.typeId),
      typeName := Str(texts.typeName(r.typeId)),
      scope := None)
  }

  /** A row's `internalid` reads back as the record's id. */
  lemma RowEntryId(r: Record, texts: Texts)
    ensures var e := RowEntry(r, texts); e.internalid.Str? && ParseInt(e.internalid.s) == Some(r.id)
  {
    ParseIntOfIntToString(r.id);
  }

  /** The rows of a search as the listing shows them, in the same order. */
  function Rows(rs: seq<Record>, texts: Texts): (es: seq<Entry>)
    ensures |es| == |rs|
    ensures forall i :: 0 <= i < |rs| ==> es[i] == RowEntry(rs[i], texts)
  {
    seq(|rs|, i requires 0 <= i < |rs| => RowEntry(rs[i], texts))
  }

  /** The stored rows' template ids are exactly their non-empty template ids, in order. */
  lemma {:induction false} RowTemplateIds(rs: seq<Record>, texts: Texts)
    ensures forall v :: v in TemplateIds(Rows(rs, texts)) <==>
      exists i :: 0 <= i < |rs| && rs[i].templateId != "" && v == Str(rs[i].templateId)
  {
    var es := Rows(rs, texts);
    forall v ensures v in TemplateIds(es) <==>
      exists i :: 0 <= i < |rs| && rs[i].templateId != "" && v == Str(rs[i].templateId)
    {
      if v in TemplateIds(es) {
        var i :| 0 <= i < |es| && es[i].templateId == v;
        assert rs[i].templateId != "" && v == Str(rs[i].templateId);
      }
    }
  }

  /** The fields a create or update request supplies; `""` is an absent or falsy field. */
  datatype Input = Input(templateId: string, scopeId: string, typeId: string, name: string, description: string)

  /** The record `create` submits: only the supplied fields are set, name and
      description sanitised, and the owner is the acting user. */
  function Created(id: nat, user: int, data: Input): (r: Record)
    ensures r.id == id && !r.inactive && OwnedBy(r, user)
    ensures r.templateId == data.templateId && r.scopeId == data.scopeId && r.typeId == data.typeId
    ensures r.name == Sanitize(data.name) && r.description == Sanitize(data.description)
  {
    ParseIntOfIntToString(user);
    Record(
      id := id, owner := IntToString(user), inactive := false,
      templateId := data.templateId, scopeId := data.scopeId, typeId := data.typeId,
      name := if data.name != "" then Sanitize(data.name) else "",
      description := if data.description != "" then Sanitize(data.description) else "")
  }

  /** The record `update` submits: template, scope, type and name are overwritten only
      when supplied (the name sanitised), the description always (sanitised, or
      emptied when absent). */
  function Updated(r: Record, data: Input): (u: Record)
    ensures u.id == r.id && u.owner == r.owner && u.inactive == r.inactive
    ensures u.templateId == (if data.templateId != "" then data.templateId else r.templateId)
    ensures u.scopeId == (if data.scopeId != "" then data.scopeId else r.scopeId)
    ensures u.typeId == (if data.typeId != "" then data.typeId else r.typeId)
    ensures u.name == (if data.name != "" then Sanitize(data.name) else r.name)
    ensures u.description == Sanitize(data.description)
    ensures u.(templateId := r.templateId, scopeId := r.scopeId, typeId := r.typeId,
               name := r.name, description := r.description) == r
  {
    r.(
      templateId := if data.templateId != "" then data.templateId else r.templateId,
      scopeId := if data.scopeId != "" then data.scopeId else r.scopeId,
      typeId := if data.typeId != "" then data.typeId else r.typeId,
      name := if data.name != "" then Sanitize(data.name) else r.name,
      description := if data.description != "" then Sanitize(data.description) else "")
  }

  /** The record `delete` submits: only the inactive flag is set. */
  function Deactivated(r: Record): (d: Record)
    ensures d.inactive && d.(inactive := r.inactive) == r
  {
    r.(inactive := true)
  }

  /** The record table. `nextId` is the id the platform assigns to the next new record. */
  class RecordStore {
    var records: seq<Record>
    var nextId: nat
    const texts: Texts

    ghost predicate Valid()
      reads this
    {
      UniqueIds(records) && forall i :: 0 <= i < |records| ==> records[i].id < nextId
    }

    constructor (texts: Texts)
      ensures Valid() && records == [] && nextId == 0
    {
      records := [];
      nextId := 0;
      this.texts := texts;
    }

    /** `nlapiCreateRecord` and `nlapiSubmitRecord` of a new record: the platform assigns
        the next id and appends the row. */
    method Insert(draft: Record) returns (id: nat)
      requires Valid()
      modifies this
      ensures Valid()
      ensures id == old(nextId) && nextId == old(nextId) + 1
      ensures records == old(records) + [draft.(id := id)]
    {
      id := nextId;
      records := records + [draft.(id := id)];
      nextId := nextId + 1;
    }

    /** `nlapiLoadRecord`: the stored record with this id, or the platform's error. */
    method Load(id: nat) returns (r: Result<Record>)
      ensures match IndexOfId(records, id)
        case None => r == Failure(LoadFailed)
        case Some(k) => r == Success(records[k])
    {
      var k := IndexOfId(records, id);
      if k.None? {
        r := Failure(LoadFailed);
      } else {
        r := Success(records[k.value]);
      }
    }

    /** `nlapiSubmitRecord` of a loaded record: its stored row is replaced; the id is
        returned. */
    method Put(r: Record) returns (id: nat)
      requires Valid() && IndexOfId(records, r.id).Some?
      modifies this
      ensures Valid() && nextId == old(nextId) && id == r.id
      ensures records == old(records)[IndexOfId(old(records), r.id).value := r]
    {
      var k := IndexOfId(records, r.id).value;
      records := records[k := r];
      id := r.id;
    }
  }
}
