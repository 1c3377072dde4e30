/** The listing rules of the product list search: which template ids the stored rows
    already cover, how missing predefined templates are completed and appended, when a
    deployment is a single-list one, and which entries the listing finally shows. */
module Listing {
  import opened Outcomes
  import opened JsValues
  import opened SeqUtil

  /** The `scope` object of a special-type fallback: `{id, name}`. */
  datatype ScopeRef = ScopeRef(id: Value, name: Value)

  /** A product list as callers receive it: a normalised stored row or a configuration
      template. Keys a template does not set are `Undefined`; `scope` is only ever set
      on a template by the special-type fallback. */
  datatype Entry = Entry(
    internalid: Value, templateId: Value, name: Value, description: Value,
    ownerId: Value, ownerName: Value,
    scopeId: Value, scopeName: Value, typeId: Value, typeName: Value,
    scope: Option<ScopeRef>)

  /** The type ids of the saved-for-later and request-a-quote lists. */
  const LaterTypeId: string := "2"
  const QuoteTypeId: string := "4"

  predicate IsSpecialType(v: Value) {
    v == Str(LaterTypeId) || v == Str(QuoteTypeId)
  }

  /** The truthy template ids of `lists`, in order: what the row loop pushes. */
  function TemplateIds(lists: seq<Entry>): (ids: seq<Value>)
    ensures |ids| <= |lists|
    ensures forall v :: v in ids ==> Truthy(v)
    ensures forall i :: 0 <= i < |lists| && Truthy(lists[i].templateId) ==> lists[i].templateId in ids
    ensures forall v :: v in ids ==> exists i :: 0 <= i < |lists| && lists[i].templateId == v
  {
    if lists == [] then []
    else
      var init := lists[..|lists| - 1];
      var last := lists[|lists| - 1];
      var ids := TemplateIds(init);
      assert forall i :: 0 <= i < |init| ==> init[i] == lists[i];
      ids + (if Truthy(last.templateId) then [last.templateId] else [])
  }

  /** The ids of two runs of rows are the ids of the first followed by those of the
      second. */
  lemma {:induction false} TemplateIdsAppend(a: seq<Entry>, b: seq<Entry>)
    ensures TemplateIds(a + b) == TemplateIds(a) + TemplateIds(b)
    decreases |b|
  {
    if b == [] {
      assert a + b == a;
    } else {
      var b' := b[..|b| - 1];
      assert (a + b)[..|a + b| - 1] == a + b';
      TemplateIdsAppend(a, b');
    }
  }

  /** A configured template the listing appends: its id is not among the stored rows'
      ids, and it has both an id and a name. */
  predicate Eligible(t: Entry, ids: seq<Value>) {
    t.templateId !in ids && Truthy(t.templateId) && Truthy(t.name)
  }

  /** The defaults the listing fills into an appended template: scope `'2'`/`private`,
      an empty description, type `'3'`/`predefined`, and the scope id as a string. */
  function WithDefaults(t: Entry): (r: Entry)
    ensures r.templateId == t.templateId && r.name == t.name
    ensures r.internalid == t.internalid && r.ownerId == t.ownerId && r.ownerName == t.ownerName
    ensures r.scope == t.scope
    ensures r.scopeId.Str? && Truthy(r.scopeId) && Truthy(r.typeId)
  {
    var t1 := if !Truthy(t.scopeId) then t.(scopeId := Str("2"), scopeName := Str("private")) else t;
    var t2 := if !Truthy(t1.description) then t1.(description := Str("")) else t1;
    var t3 := if !Truthy(t2.typeId) then t2.(typeId := Str("3"), typeName := Str("predefined")) else t2;
    assert Truthy(t3.scopeId) && Truthy(t3.typeId);
    t3.(scopeId := AsString(t3.scopeId))
  }

  /** Each default is filled exactly where the template lacked the field. */
  lemma WithDefaultsFields(t: Entry)
    ensures var r := WithDefaults(t);
      && (Truthy(t.scopeId) ==> r.scopeId == AsString(t.scopeId) && r.scopeName == t.scopeName)
      && (!Truthy(t.scopeId) ==> r.scopeId == Str("2") && r.scopeName == Str("private"))
      && r.description == (if Truthy(t.description) then t.description else Str(""))
      && r.typeId == (if Truthy(t.typeId) then t.typeId else Str("3"))
      && r.typeName == (if Truthy(t.typeId) then t.typeName else Str("predefined"))
  {
  }

  /** Completing a completed template changes nothing. */
  lemma WithDefaultsIdempotent(t: Entry)
    ensures WithDefaults(WithDefaults(t)) == WithDefaults(t)
  {
    var r := WithDefaults(t);
    assert Truthy(r.scopeId) && Truthy(r.typeId);
    assert r.description == Str("") || Truthy(r.description);
    assert AsString(r.scopeId) == r.scopeId;
  }

  /** The configuration templates after the listing loop: every eligible template is
      completed in place, every other one is left as it was. */
  function Completed(ts: seq<Entry>, ids: seq<Value>): (r: seq<Entry>)
    ensures |r| == |ts|
  {
    if ts == [] then []
    else
      var t := ts[|ts| - 1];
      var init := Completed(ts[..|ts| - 1], ids);
      init + [if Eligible(t, ids) then WithDefaults(t) else t]
  }

  /** Each template is completed exactly when it is eligible, and kept otherwise. */
  lemma {:induction false} CompletedAt(ts: seq<Entry>, ids: seq<Value>, i: nat)
    requires i < |ts|
    ensures Completed(ts, ids)[i] == if Eligible(ts[i], ids) then WithDefaults(ts[i]) else ts[i]
    decreases |ts|
  {
    if i < |ts| - 1 {
      var init := ts[..|ts| - 1];
      CompletedAt(init, ids, i);
    }
  }

  /** The templates the listing appends, completed, in configuration order. */
  function Synthesized(ts: seq<Entry>, ids: seq<Value>): (r: seq<Entry>)
    ensures |r| <= |ts|
  {
    if ts == [] then []
    else
      var t := ts[|ts| - 1];
      Synthesized(ts[..|ts| - 1], ids) + (if Eligible(t, ids) then [WithDefaults(t)] else [])
  }

  /** An entry is appended exactly when it completes an eligible configured template. */
  lemma {:induction false} SynthesizedMembers(ts: seq<Entry>, ids: seq<Value>, e: Entry)
    ensures e in Synthesized(ts, ids) <==>
      exists i :: 0 <= i < |ts| && Eligible(ts[i], ids) && e == WithDefaults(ts[i])
    decreases |ts|
  {
    if ts != [] {
      var init := ts[..|ts| - 1];
      SynthesizedMembers(init, ids, e);
      assert forall i :: 0 <= i < |init| ==> init[i] == ts[i];
      if exists i :: 0 <= i < |ts| && Eligible(ts[i], ids) && e == WithDefaults(ts[i]) {
        var i :| 0 <= i < |ts| && Eligible(ts[i], ids) && e == WithDefaults(ts[i]);
        if i < |init| {
          assert Eligible(init[i], ids) && e == WithDefaults(init[i]);
        }
      }
    }
  }

  /** Templates are appended in configuration order: the templates of two runs of
      configuration are those of the first followed by those of the second. */
  lemma {:induction false} SynthesizedAppend(a: seq<Entry>, b: seq<Entry>, ids: seq<Value>)
    ensures Synthesized(a + b, ids) == Synthesized(a, ids) + Synthesized(b, ids)
    decreases |b|
  {
    if b == [] {
      assert a + b == a;
    } else {
      var b' := b[..|b| - 1];
      assert (a + b)[..|a + b| - 1] == a + b';
      assert (a + b)[|a + b| - 1] == b[|b| - 1];
      SynthesizedAppend(a, b', ids);
    }
  }

  /** What every appended entry looks like: it has an id and a name, the id is not one
      the stored rows already have, its scope id is a non-empty string and its type is
      set. */
  lemma SynthesizedShape(ts: seq<Entry>, ids: seq<Value>, e: Entry)
    requires e in Synthesized(ts, ids)
    ensures Truthy(e.templateId) && Truthy(e.name) && e.templateId !in ids
    ensures e.scopeId.Str? && e.scopeId.s != "" && Truthy(e.typeId)
  {
    SynthesizedMembers(ts, ids, e);
  }

  /** The in-place completion is stable: running the loop again over the completed
      configuration changes it no further and appends the same entries. */
  lemma {:induction false} CompletedStable(ts: seq<Entry>, ids: seq<Value>)
    ensures Completed(Completed(ts, ids), ids) == Completed(ts, ids)
    ensures Synthesized(Completed(ts, ids), ids) == Synthesized(ts, ids)
    decreases |ts|
  {
    if ts != [] {
      var init := ts[..|ts| - 1];
      var t := ts[|ts| - 1];
      CompletedStable(init, ids);
      var c := Completed(ts, ids);
      assert c[..|c| - 1] == Completed(init, ids);
      WithDefaultsIdempotent(t);
    }
  }

  /** A template that counts towards a single-list deployment: untyped, or of a type
      other than the two special ones. */
  predicate Ordinary(t: Entry) {
    !Truthy(t.typeId) || (t.typeId != Str(LaterTypeId) && t.typeId != Str(QuoteTypeId))
  }

  function OrdinaryCount(ts: seq<Entry>): nat {
    if ts == [] then 0
    else OrdinaryCount(ts[..|ts| - 1]) + (if Ordinary(ts[|ts| - 1]) then 1 else 0)
  }

  /** `isSingleList`: additions are disabled, templates are configured, and exactly one
      of them is ordinary. */
  predicate IsSingleList(additionEnabled: bool, templates: Option<seq<Entry>>) {
    !additionEnabled && templates.Some? && OrdinaryCount(templates.value) == 1
  }

  /** Exactly one ordinary template, stated without counting. */
  ghost predicate UniqueOrdinary(ts: seq<Entry>) {
    exists i :: 0 <= i < |ts| && Ordinary(ts[i]) &&
      forall j :: 0 <= j < |ts| && j != i ==> !Ordinary(ts[j])
  }

  lemma {:induction false} OrdinaryCountZero(ts: seq<Entry>)
    ensures OrdinaryCount(ts) == 0 <==> forall j :: 0 <= j < |ts| ==> !Ordinary(ts[j])
    decreases |ts|
  {
    if ts != [] {
      var init := ts[..|ts| - 1];
      OrdinaryCountZero(init);
      assert forall j :: 0 <= j < |init| ==> init[j] == ts[j];
    }
  }

  lemma {:induction false} OrdinaryCountOne(ts: seq<Entry>)
    ensures OrdinaryCount(ts) == 1 <==> UniqueOrdinary(ts)
    decreases |ts|
  {
    if ts != [] {
      var n := |ts| - 1;
      var init := ts[..n];
      assert forall j :: 0 <= j < n ==> init[j] == ts[j];
      OrdinaryCountOne(init);
      OrdinaryCountZero(init);
      if OrdinaryCount(ts) == 1 {
        CountOneUnique(ts);
      }
      if UniqueOrdinary(ts) {
        UniqueCountOne(ts);
      }
    }
  }

  /** The step from a count of one to a unique ordinary template. */
  lemma CountOneUnique(ts: seq<Entry>)
    requires ts != [] && OrdinaryCount(ts) == 1
    requires var init := ts[..|ts| - 1];
      (OrdinaryCount(init) == 1 <==> UniqueOrdinary(init)) &&
      (OrdinaryCount(init) == 0 <==> forall j :: 0 <= j < |init| ==> !Ordinary(init[j]))
    ensures UniqueOrdinary(ts)
  {
    var n := |ts| - 1;
    var init := ts[..n];
    assert forall j :: 0 <= j < n ==> init[j] == ts[j];
    if Ordinary(ts[n]) {
      assert forall j :: 0 <= j < |ts| && j != n ==> !Ordinary(ts[j]);
    } else {
      var i :| 0 <= i < n && Ordinary(init[i]) &&
        forall j :: 0 <= j < n && j != i ==> !Ordinary(init[j]);
      assert forall j :: 0 <= j < |ts| && j != i ==> !Ordinary(ts[j]);
    }
  }

  /** The step from a unique ordinary template to a count of one. */
  lemma UniqueCountOne(ts: seq<Entry>)
    requires ts != [] && UniqueOrdinary(ts)
    requires var init := ts[..|ts| - 1];
      (OrdinaryCount(init) == 1 <==> UniqueOrdinary(init)) &&
      (OrdinaryCount(init) == 0 <==> forall j :: 0 <= j < |init| ==> !Ordinary(init[j]))
    ensures OrdinaryCount(ts) == 1
  {
    var n := |ts| - 1;
    var init := ts[..n];
    assert forall j :: 0 <= j < n ==> init[j] == ts[j];
    var i :| 0 <= i < |ts| && Ordinary(ts[i]) &&
      forall j :: 0 <= j < |ts| && j != i ==> !Ordinary(ts[j]);
    if i == n {
      assert forall j :: 0 <= j < n ==> !Ordinary(init[j]);
    } else {
      assert Ordinary(init[i]) && forall j :: 0 <= j < n && j != i ==> !Ordinary(init[j]);
    }
  }

  /** `isSingleList` holds iff additions are disabled, templates are configured, and
      exactly one template is untyped or of a non-special type. */
  lemma IsSingleListIff(additionEnabled: bool, templates: Option<seq<Entry>>)
    ensures IsSingleList(additionEnabled, templates) <==>
      !additionEnabled && templates.Some? && UniqueOrdinary(templates.value)
  {
    if templates.Some? {
      OrdinaryCountOne(templates.value);
    }
  }

  /** Completing the templates does not change which of them are ordinary, so
      `isSingleList` gives the same answer before and after the listing loop. */
  lemma {:induction false} CompletedKeepsOrdinaryCount(ts: seq<Entry>, ids: seq<Value>)
    ensures OrdinaryCount(Completed(ts, ids)) == OrdinaryCount(ts)
    decreases |ts|
  {
    if ts != [] {
      var c := Completed(ts, ids);
      assert c[..|c| - 1] == Completed(ts[..|ts| - 1], ids);
      CompletedKeepsOrdinaryCount(ts[..|ts| - 1], ids);
    }
  }

  /** Whether the final filter keeps an entry: in single-list mode only predefined
      lists, otherwise everything but the two special types. */
  predicate Shown(single: bool, e: Entry) {
    if single then e.typeName == Str("predefined") else !IsSpecialType(e.typeId)
  }

  /** The final filter of the listing. */
  function Visible(single: bool, lists: seq<Entry>): (r: seq<Entry>)
    ensures |r| <= |lists|
  {
    if lists == [] then []
    else
      var e := lists[|lists| - 1];
      Visible(single, lists[..|lists| - 1]) + (if Shown(single, e) then [e] else [])
  }

  /** The listing keeps exactly the entries the filter admits, in their order. */
  lemma {:induction false} VisibleSpec(single: bool, lists: seq<Entry>)
    ensures IsSubsequence(Visible(single, lists), lists)
    ensures forall e :: e in Visible(single, lists) <==> e in lists && Shown(single, e)
    decreases |lists|
  {
    if lists == [] {
    } else {
      var init := lists[..|lists| - 1];
      var e := lists[|lists| - 1];
      VisibleSpec(single, init);
      assert lists == init + [e];
      SubsequenceExtend(Visible(single, init), init, e);
      if !Shown(single, e) {
        assert Visible(single, lists) == Visible(single, init) + [];
        assert Visible(single, init) + [] == Visible(single, init);
        assert forall x :: x in lists <==> x in init || x == e;
      }
    }
  }

  /** In single-list mode every listed entry is predefined; otherwise no listed entry
      is a saved-for-later or request-a-quote list. */
  lemma VisibleTypes(single: bool, lists: seq<Entry>, e: Entry)
    requires e in Visible(single, lists)
    ensures single ==> e.typeName == Str("predefined")
    ensures !single ==> e.typeId != Str(LaterTypeId) && e.typeId != Str(QuoteTypeId)
  {
    VisibleSpec(single, lists);
  }
}
