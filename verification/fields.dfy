/**
 Field selection on the configuration screen
 (src/components/ManualFieldConfigScreen.tsx): which fields of a model can be
 mentioned in a template, in which order, and the per-model field map with the
 related models of each link field.
 */
module FieldSelection {
  import opened Wrappers

  /**
   A field definition as the host describes it. `itemTypeId` is the id of the
   model that owns the field; `linkTargets` is
   `validators.item_item_type.item_types` when the field has one.
   */
  datatype Field = Field(
    id: string,
    apiKey: string,
    fieldType: string,
    itemTypeId: Option<string>,
    linkTargets: Option<seq<string>>)

  /** A model (item type). */
  datatype ItemType = ItemType(id: string, apiKey: string)

  /** A model a link field can point to, with its supported fields keyed by API key. */
  datatype RelatedModel = RelatedModel(model: ItemType, fields: map<string, Field>)

  /** A value of `currentModelFields`: a field, and for a link field also its related models by API key. */
  datatype ModelField =
    | Plain(field: Field)
    | Linked(field: Field, relatedModels: map<string, RelatedModel>)

  /** A link field names a model the host does not know: reading its API key throws. */
  datatype ConfigError = UnknownItemType(id: string)

  /** The field types a template may mention. */
  const SupportedFieldTypes: seq<string> := ["string", "slug", "integer", "float", "link"]

  /** The field belongs to model `modelId` and has a supported type. */
  predicate IsSupportedIn(f: Field, modelId: string) {
    f.itemTypeId == Some(modelId) && f.fieldType in SupportedFieldTypes
  }

  /**
   `le(a, b)` stands for `a.localeCompare(b) <= 0`; a consistent comparison is a
   total preorder.
   */
  ghost predicate TotalPreorder(le: (string, string) -> bool) {
    && (forall a, b :: le(a, b) || le(b, a))
    && (forall a, b, c :: le(a, b) && le(b, c) ==> le(a, c))
  }

  /** The fields are in ascending API-key order. */
  ghost predicate SortedByApiKey(fs: seq<Field>, le: (string, string) -> bool) {
    forall i, j | 0 <= i < j < |fs| :: le(fs[i].apiKey, fs[j].apiKey)
  }

  /** The `flatMap` of `getSupportedFields`: the supported fields of `modelId`, in host order. */
  function FilterSupported(fields: seq<Field>, modelId: string): (r: seq<Field>)
    ensures |r| <= |fields|
    ensures forall f :: multiset(r)[f] == if IsSupportedIn(f, modelId) then multiset(fields)[f] else 0
  {
    if fields == [] then []
    else
      assert fields == [fields[0]] + fields[1..];
      (if IsSupportedIn(fields[0], modelId) then [fields[0]] else []) + FilterSupported(fields[1..], modelId)
  }

  /** Insert `x` into a sorted list before the first field whose key is not below it. */
  function Insert(x: Field, sorted: seq<Field>, le: (string, string) -> bool): (r: seq<Field>)
    requires TotalPreorder(le)
    requires SortedByApiKey(sorted, le)
    ensures SortedByApiKey(r, le)
    ensures multiset(r) == multiset(sorted) + multiset{x}
    ensures forall i | 0 <= i < |r| :: r[i] == x || r[i] in sorted
  {
    if sorted == [] || le(x.apiKey, sorted[0].apiKey) then
      [x] + sorted
    else
      var rest := Insert(x, sorted[1..], le);
      InsertHeadSorted(x, sorted, rest, le);
      assert sorted == [sorted[0]] + sorted[1..];
      [sorted[0]] + rest
  }

  /** The head of a sorted list stays in front of the rest with `x` inserted. */
  lemma InsertHeadSorted(x: Field, sorted: seq<Field>, rest: seq<Field>, le: (string, string) -> bool)
    requires TotalPreorder(le)
    requires sorted != [] && SortedByApiKey(sorted, le) && !le(x.apiKey, sorted[0].apiKey)
    requires SortedByApiKey(rest, le)
    requires forall i | 0 <= i < |rest| :: rest[i] == x || rest[i] in sorted[1..]
    ensures SortedByApiKey([sorted[0]] + rest, le)
  {
    var r := [sorted[0]] + rest;
    forall i | 0 <= i < |rest| ensures le(sorted[0].apiKey, rest[i].apiKey) {
      if rest[i] != x {
        var j :| 0 <= j < |sorted[1..]| && sorted[1..][j] == rest[i];
        assert sorted[j + 1] == rest[i];
      }
    }
    forall i, j | 0 <= i < j < |r| ensures le(r[i].apiKey, r[j].apiKey) {
      if i > 0 {
        assert r[i] == rest[i - 1] && r[j] == rest[j - 1];
      } else {
        assert r[j] == rest[j - 1];
      }
    }
  }

  /** The fields sorted by API key (an insertion sort standing for the engine's stable `Array.prototype.sort`). */
  function SortByApiKey(fs: seq<Field>, le: (string, string) -> bool): (r: seq<Field>)
    requires TotalPreorder(le)
    ensures SortedByApiKey(r, le)
    ensures multiset(r) == multiset(fs)
  {
    if fs == [] then []
    else
      assert fs == [fs[0]] + fs[1..];
      Insert(fs[0], SortByApiKey(fs[1..], le), le)
  }

  /**
   `getSupportedFields(modelId)`: the fields of the model whose type is string,
   slug, integer, float or link, ordered by API key.
   */
  function GetSupportedFields(allFields: seq<Field>, modelId: string, le: (string, string) -> bool)
    : (r: seq<Field>)
    requires TotalPreorder(le)
    ensures SortedByApiKey(r, le)
    ensures multiset(r) == multiset(FilterSupported(allFields, modelId))
    ensures forall f :: f in r <==> f in allFields && IsSupportedIn(f, modelId)
  {
    var r := SortByApiKey(FilterSupported(allFields, modelId), le);
    assert forall f :: f in r <==> f in multiset(r);
    r
  }

  /** One suggestion of the mention input. */
  datatype Mention = Mention(id: string, display: string, field: Field)

  /** `mentionableFields`: one suggestion per supported field of the current model, in the same order. */
  function MentionableFields(allFields: seq<Field>, currentModelId: string, le: (string, string) -> bool)
    : (r: seq<Mention>)
    requires TotalPreorder(le)
    ensures |r| == |GetSupportedFields(allFields, currentModelId, le)|
    ensures forall i | 0 <= i < |r| :: r[i].field == GetSupportedFields(allFields, currentModelId, le)[i]
    ensures forall i | 0 <= i < |r| :: r[i].id == r[i].field.id && r[i].display == r[i].field.apiKey
  {
    var supported := GetSupportedFields(allFields, currentModelId, le);
    seq(|supported|, i requires 0 <= i < |supported| =>
      Mention(supported[i].id, supported[i].apiKey, supported[i]))
  }

  /**
   The suggestions offer every supported field of the current model and nothing
   else, listed by ascending display text.
   */
  lemma {:induction false} MentionsSortedAndComplete(allFields: seq<Field>, currentModelId: string,
                                                     le: (string, string) -> bool)
    requires TotalPreorder(le)
    ensures var r := MentionableFields(allFields, currentModelId, le);
            && (forall i, j | 0 <= i < j < |r| :: le(r[i].display, r[j].display))
            && (forall f :: (exists i | 0 <= i < |r| :: r[i].field == f) <==>
                              f in allFields && IsSupportedIn(f, currentModelId))
  {
    var r := MentionableFields(allFields, currentModelId, le);
    var supported := GetSupportedFields(allFields, currentModelId, le);
    MentionsSorted(r, supported, le);
    MentionsComplete(r, supported);
  }

  lemma {:induction false} MentionsSorted(r: seq<Mention>, supported: seq<Field>, le: (string, string) -> bool)
    requires |r| == |supported| && forall i | 0 <= i < |r| :: r[i].display == supported[i].apiKey
    requires SortedByApiKey(supported, le)
    ensures forall i, j | 0 <= i < j < |r| :: le(r[i].display, r[j].display)
  {
    forall i, j | 0 <= i < j < |r| ensures le(r[i].display, r[j].display) {
      assert r[i].display == supported[i].apiKey && r[j].display == supported[j].apiKey;
    }
  }

  lemma {:induction false} MentionsComplete(r: seq<Mention>, supported: seq<Field>)
    requires |r| == |supported| && forall i | 0 <= i < |r| :: r[i].field == supported[i]
    ensures forall f :: (exists i | 0 <= i < |r| :: r[i].field == f) <==> f in supported
  {
    forall f ensures (exists i | 0 <= i < |r| :: r[i].field == f) <==> f in supported {
      if f in supported {
        var i :| 0 <= i < |supported| && supported[i] == f;
        assert r[i].field == f;
      }
    }
  }

  /** The object built from key-value entries: a later entry overrides an earlier one with the same key. */
  function FromEntries<V>(entries: seq<(string, V)>): (r: map<string, V>)
    ensures r.Keys == EntryKeys(entries)
    ensures forall i | 0 <= i < |entries| && (forall j | i < j < |entries| :: entries[j].0 != entries[i].0) ::
              r[entries[i].0] == entries[i].1
    ensures forall k | k in r :: (k, r[k]) in entries
  {
    if entries == [] then map[]
    else
      var init := entries[..|entries| - 1];
      var last := entries[|entries| - 1];
      var m := FromEntries(init);
      FromEntriesStep(init, last, m);
      assert entries == init + [last];
      m[last.0 := last.1]
  }

  /** One more entry: its key is added, or its value replaces the earlier one. */
  lemma {:induction false} FromEntriesStep<V>(init: seq<(string, V)>, last: (string, V), m: map<string, V>)
    requires m.Keys == EntryKeys(init)
    requires forall i | 0 <= i < |init| && (forall j | i < j < |init| :: init[j].0 != init[i].0) ::
               m[init[i].0] == init[i].1
    requires forall k | k in m :: (k, m[k]) in init
    ensures var r := m[last.0 := last.1];
            var all := init + [last];
            && r.Keys == EntryKeys(all)
            && (forall i | 0 <= i < |all| && (forall j | i < j < |all| :: all[j].0 != all[i].0) ::
                  r[all[i].0] == all[i].1)
            && (forall k | k in r :: (k, r[k]) in all)
  {
    var r := m[last.0 := last.1];
    var all := init + [last];
    assert EntryKeys(all) == EntryKeys(init) + {last.0};
    forall i | 0 <= i < |all| && (forall j | i < j < |all| :: all[j].0 != all[i].0)
      ensures r[all[i].0] == all[i].1
    {
      if i < |init| {
        assert all[i] == init[i];
        assert all[|init|] == last;
        assert forall j | i < j < |init| :: init[j] == all[j];
      }
    }
    forall k | k in r ensures (k, r[k]) in all {
      if k != last.0 {
        assert (k, m[k]) in init;
      }
    }
  }

  /** The supported fields of a model keyed by API key. */
  function FieldsByApiKey(fields: seq<Field>): (r: map<string, Field>)
    ensures r.Keys == set f | f in fields :: f.apiKey
    ensures forall k | k in r :: r[k].apiKey == k && r[k] in fields
  {
    var entries := seq(|fields|, i requires 0 <= i < |fields| => (fields[i].apiKey, fields[i]));
    var r := FromEntries(entries);
    assert forall e | e in entries :: e.1 in fields && e.0 == e.1.apiKey;
    assert forall f | f in fields :: (f.apiKey, f) in entries by {
      forall f | f in fields ensures (f.apiKey, f) in entries {
        var i :| 0 <= i < |fields| && fields[i] == f;
        assert entries[i] == (f.apiKey, f);
      }
    }
    r
  }

  /** The models `ids` name, in order, or the first id the host does not know. */
  function LookupItemTypes(ids: seq<string>, itemTypes: map<string, ItemType>): (r: Result<seq<ItemType>, ConfigError>)
    ensures r.Ok? <==> forall i | 0 <= i < |ids| :: ids[i] in itemTypes
    ensures r.Ok? ==> |r.value| == |ids| && forall i | 0 <= i < |ids| :: r.value[i] == itemTypes[ids[i]]
    ensures r.Err? ==> exists i | 0 <= i < |ids| :: ids[i] !in itemTypes && r.error == UnknownItemType(ids[i])
  {
    if ids == [] then Ok([])
    else if ids[0] !in itemTypes then Err(UnknownItemType(ids[0]))
    else
      match LookupItemTypes(ids[1..], itemTypes)
      case Err(e) => Err(e)
      case Ok(rest) => Ok([itemTypes[ids[0]]] + rest)
  }

  /** The entry of `relatedModelsByApiKey` for one target model. */
  function RelatedEntry(model: ItemType, allFields: seq<Field>, le: (string, string) -> bool)
    : (string, RelatedModel)
    requires TotalPreorder(le)
  {
    (model.apiKey, RelatedModel(model, FieldsByApiKey(GetSupportedFields(allFields, model.id, le))))
  }

  /** The `relatedModelsByApiKey` of a link field: each target model with its supported fields. */
  function RelatedModels(ids: seq<string>, itemTypes: map<string, ItemType>, allFields: seq<Field>,
                         le: (string, string) -> bool): (r: Result<map<string, RelatedModel>, ConfigError>)
    requires TotalPreorder(le)
    ensures r.Ok? <==> forall i | 0 <= i < |ids| :: ids[i] in itemTypes
    ensures r.Ok? ==> r.value.Keys == TargetKeys(ids, itemTypes)
    ensures r.Ok? ==> forall k | k in r.value ::
      && r.value[k].model.apiKey == k
      && IsTargetModel(r.value[k].model, ids, itemTypes)
      && r.value[k].fields == FieldsByApiKey(GetSupportedFields(allFields, r.value[k].model.id, le))
  {
    match LookupItemTypes(ids, itemTypes)
    case Err(e) => Err(e)
    case Ok(models) =>
      var entries := seq(|models|, i requires 0 <= i < |models| => RelatedEntry(models[i], allFields, le));
      RelatedEntriesKeys(ids, itemTypes, models, entries, allFields, le);
      Ok(FromEntries(entries))
  }

  /** `m` is the model the host knows under one of the target ids. */
  ghost predicate IsTargetModel(m: ItemType, ids: seq<string>, itemTypes: map<string, ItemType>) {
    exists i | 0 <= i < |ids| :: ids[i] in itemTypes && itemTypes[ids[i]] == m
  }

  /** The API keys of the models `ids` names. */
  ghost function TargetKeys(ids: seq<string>, itemTypes: map<string, ItemType>): set<string> {
    set id | id in ids && id in itemTypes :: itemTypes[id].apiKey
  }

  /** The related-model entries are keyed by the target models' API keys and describe those models. */
  lemma {:induction false} RelatedEntriesKeys(ids: seq<string>, itemTypes: map<string, ItemType>,
                                              models: seq<ItemType>, entries: seq<(string, RelatedModel)>,
                                              allFields: seq<Field>, le: (string, string) -> bool)
    requires TotalPreorder(le)
    requires |models| == |ids| && forall i | 0 <= i < |ids| :: ids[i] in itemTypes && models[i] == itemTypes[ids[i]]
    requires |entries| == |models| && forall i | 0 <= i < |models| :: entries[i] == RelatedEntry(models[i], allFields, le)
    ensures EntryKeys(entries) == TargetKeys(ids, itemTypes)
    ensures forall e | e in entries ::
      && e.1.model.apiKey == e.0
      && IsTargetModel(e.1.model, ids, itemTypes)
      && e.1.fields == FieldsByApiKey(GetSupportedFields(allFields, e.1.model.id, le))
  {
    TargetKeysCovered(ids, itemTypes, models, entries, allFields, le);
    EntriesDescribeTargets(ids, itemTypes, models, entries, allFields, le);
  }

  lemma {:induction false} TargetKeysCovered(ids: seq<string>, itemTypes: map<string, ItemType>,
                                             models: seq<ItemType>, entries: seq<(string, RelatedModel)>,
                                             allFields: seq<Field>, le: (string, string) -> bool)
    requires TotalPreorder(le)
    requires |models| == |ids| && forall i | 0 <= i < |ids| :: ids[i] in itemTypes && models[i] == itemTypes[ids[i]]
    requires |entries| == |models| && forall i | 0 <= i < |models| :: entries[i] == RelatedEntry(models[i], allFields, le)
    ensures TargetKeys(ids, itemTypes) <= EntryKeys(entries)
  {
    forall id | id in ids && id in itemTypes ensures itemTypes[id].apiKey in EntryKeys(entries) {
      var i :| 0 <= i < |ids| && ids[i] == id;
      assert entries[i] in entries;
    }
  }

  lemma {:induction false} EntriesDescribeTargets(ids: seq<string>, itemTypes: map<string, ItemType>,
                                                  models: seq<ItemType>, entries: seq<(string, RelatedModel)>,
                                                  allFields: seq<Field>, le: (string, string) -> bool)
    requires TotalPreorder(le)
    requires |models| == |ids| && forall i | 0 <= i < |ids| :: ids[i] in itemTypes && models[i] == itemTypes[ids[i]]
    requires |entries| == |models| && forall i | 0 <= i < |models| :: entries[i] == RelatedEntry(models[i], allFields, le)
    ensures EntryKeys(entries) <= TargetKeys(ids, itemTypes)
    ensures forall e | e in entries ::
      && e.1.model.apiKey == e.0
      && IsTargetModel(e.1.model, ids, itemTypes)
      && e.1.fields == FieldsByApiKey(GetSupportedFields(allFields, e.1.model.id, le))
  {
    forall e | e in entries
      ensures e.0 in TargetKeys(ids, itemTypes)
      ensures IsTargetModel(e.1.model, ids, itemTypes)
      ensures e.1.model.apiKey == e.0
      ensures e.1.fields == FieldsByApiKey(GetSupportedFields(allFields, e.1.model.id, le))
    {
      var i :| 0 <= i < |entries| && entries[i] == e;
      assert ids[i] in ids;
      assert e.1.model == itemTypes[ids[i]];
    }
  }

  /** A link field without `item_item_type` validation is left out of `currentModelFields`. */
  predicate OmittedLink(f: Field) {
    f.fieldType == "link" && f.linkTargets.None?
  }

  /** The API keys of the fields `currentModelFields` keeps. */
  function KeptKeys(fields: seq<Field>): set<string> {
    set f | f in fields && !OmittedLink(f) :: f.apiKey
  }

  /** The keys of a list of entries. */
  ghost function EntryKeys<V>(entries: seq<(string, V)>): set<string> {
    set e | e in entries :: e.0
  }

  /** Some kept link field of `fields` names a model the host does not know. */
  ghost predicate NamesUnknownModel(fields: seq<Field>, itemTypes: map<string, ItemType>) {
    exists k, i | 0 <= k < |fields| && fields[k].fieldType == "link" && fields[k].linkTargets.Some? ::
      0 <= i < |fields[k].linkTargets.value| && fields[k].linkTargets.value[i] !in itemTypes
  }

  /**
   A link value carries the related models of its own field: the models its
   `item_item_type` validation names, each with its supported fields.
   */
  ghost predicate CarriesRelatedModels(v: ModelField, itemTypes: map<string, ItemType>, allFields: seq<Field>,
                                       le: (string, string) -> bool)
    requires TotalPreorder(le)
  {
    v.Linked? ==> v.field.linkTargets.Some?
                  && RelatedModels(v.field.linkTargets.value, itemTypes, allFields, le) == Ok(v.relatedModels)
  }

  /** The entries of `currentModelFields` for `fields`, in order. */
  function ModelFieldEntries(fields: seq<Field>, itemTypes: map<string, ItemType>, allFields: seq<Field>,
                             le: (string, string) -> bool): (r: Result<seq<(string, ModelField)>, ConfigError>)
    requires TotalPreorder(le)
    ensures r.Err? <==> NamesUnknownModel(fields, itemTypes)
    ensures r.Ok? ==> EntryKeys(r.value) == KeptKeys(fields)
    ensures r.Ok? ==> forall e | e in r.value ::
      && e.1.field in fields
      && !OmittedLink(e.1.field)
      && e.0 == e.1.field.apiKey
      && (e.1.Linked? <==> e.1.field.fieldType == "link")
      && CarriesRelatedModels(e.1, itemTypes, allFields, le)
  {
    if fields == [] then Ok([])
    else
      var f := fields[0];
      var head := EntryOf(f, itemTypes, allFields, le);
      match head
      case Err(e) =>
        assert NamesUnknownModel(fields, itemTypes) by {
          var i :| 0 <= i < |f.linkTargets.value| && f.linkTargets.value[i] !in itemTypes;
          assert fields[0] == f;
        }
        Err(e)
      case Ok(h) =>
        match ModelFieldEntries(fields[1..], itemTypes, allFields, le)
        case Err(e) =>
          UnknownModelInTail(fields, itemTypes);
          Err(e)
        case Ok(rest) =>
          UnknownModelSplit(fields, itemTypes);
          EntriesKeysSplit(fields, h, rest);
          Ok(h + rest)
  }

  /** The entries one supported field contributes: none, one plain, or one linked. */
  function EntryOf(f: Field, itemTypes: map<string, ItemType>, allFields: seq<Field>,
                   le: (string, string) -> bool): (r: Result<seq<(string, ModelField)>, ConfigError>)
    requires TotalPreorder(le)
    ensures r.Err? <==> f.fieldType == "link" && f.linkTargets.Some? &&
                        exists i | 0 <= i < |f.linkTargets.value| :: f.linkTargets.value[i] !in itemTypes
    ensures r.Ok? && OmittedLink(f) ==> r.value == []
    ensures r.Ok? && !OmittedLink(f) ==>
      && |r.value| == 1
      && r.value[0].0 == f.apiKey
      && r.value[0].1.field == f
      && (r.value[0].1.Linked? <==> f.fieldType == "link")
      && CarriesRelatedModels(r.value[0].1, itemTypes, allFields, le)
  {
    if f.fieldType == "link" then
      match f.linkTargets
      case None => Ok([])
      case Some(ids) =>
        match RelatedModels(ids, itemTypes, allFields, le)
        case Err(e) => Err(e)
        case Ok(related) => Ok([(f.apiKey, Linked(f, related))])
    else Ok([(f.apiKey, Plain(f))])
  }

  lemma UnknownModelInTail(fields: seq<Field>, itemTypes: map<string, ItemType>)
    requires fields != [] && NamesUnknownModel(fields[1..], itemTypes)
    ensures NamesUnknownModel(fields, itemTypes)
  {
    var tail := fields[1..];
    var k, i :| 0 <= k < |tail| && tail[k].fieldType == "link" && tail[k].linkTargets.Some?
                && 0 <= i < |tail[k].linkTargets.value| && tail[k].linkTargets.value[i] !in itemTypes;
    assert fields[k + 1] == tail[k];
  }

  lemma UnknownModelSplit(fields: seq<Field>, itemTypes: map<string, ItemType>)
    requires fields != [] && !NamesUnknownModel(fields[1..], itemTypes)
    requires !(fields[0].fieldType == "link" && fields[0].linkTargets.Some? &&
               exists i | 0 <= i < |fields[0].linkTargets.value| :: fields[0].linkTargets.value[i] !in itemTypes)
    ensures !NamesUnknownModel(fields, itemTypes)
  {
    forall k, i | 0 <= k < |fields| && fields[k].fieldType == "link" && fields[k].linkTargets.Some?
                  && 0 <= i < |fields[k].linkTargets.value|
      ensures fields[k].linkTargets.value[i] in itemTypes
    {
      if k > 0 {
        assert fields[1..][k - 1] == fields[k];
      }
    }
  }

  lemma EntriesKeysSplit(fields: seq<Field>, h: seq<(string, ModelField)>, rest: seq<(string, ModelField)>)
    requires fields != []
    requires if OmittedLink(fields[0]) then h == [] else |h| == 1 && h[0].0 == fields[0].apiKey
    requires EntryKeys(rest) == KeptKeys(fields[1..])
    ensures EntryKeys(h + rest) == KeptKeys(fields)
  {
    forall k | k in EntryKeys(h + rest) ensures k in KeptKeys(fields) {
      var e :| e in h + rest && e.0 == k;
      if e in h {
        assert fields[0] in fields;
      } else {
        assert e in rest;
        assert k in EntryKeys(rest);
        var f :| f in fields[1..] && !OmittedLink(f) && f.apiKey == k;
        assert f in fields;
      }
    }
    forall k | k in KeptKeys(fields) ensures k in EntryKeys(h + rest) {
      var f :| f in fields && !OmittedLink(f) && f.apiKey == k;
      if f == fields[0] {
        assert h[0] in h + rest;
      } else {
        var j :| 0 <= j < |fields| && fields[j] == f;
        assert fields[1..][j - 1] == f;
        assert k in KeptKeys(fields[1..]);
        var e :| e in rest && e.0 == k;
        assert e in h + rest;
      }
    }
  }

  /**
   `currentModelFields`: every supported field of the current model keyed by its
   API key, except link fields without `item_item_type` validation; a link field
   also carries its related models. It throws when a link field names an
   unknown model.
   */
  function CurrentModelFields(allFields: seq<Field>, itemTypes: map<string, ItemType>, currentModelId: string,
                              le: (string, string) -> bool): (r: Result<map<string, ModelField>, ConfigError>)
    requires TotalPreorder(le)
    ensures var supported := GetSupportedFields(allFields, currentModelId, le);
            && (r.Err? <==> NamesUnknownModel(supported, itemTypes))
            && (r.Ok? ==> r.value.Keys == KeptKeys(supported))
            && (r.Ok? ==> forall key | key in r.value ::
                  && r.value[key].field.apiKey == key
                  && r.value[key].field in allFields
                  && IsSupportedIn(r.value[key].field, currentModelId)
                  && !OmittedLink(r.value[key].field)
                  && (r.value[key].Linked? <==> r.value[key].field.fieldType == "link")
                  && CarriesRelatedModels(r.value[key], itemTypes, allFields, le))
  {
    var supported := GetSupportedFields(allFields, currentModelId, le);
    match ModelFieldEntries(supported, itemTypes, allFields, le)
    case Err(e) => Err(e)
    case Ok(entries) => Ok(FromEntries(entries))
  }

  /**
   When no two supported fields of the model share an API key, every kept
   supported field is found under its own key, and a link field's entry holds
   its target models keyed by their API keys, each with its supported fields.
   */
  lemma {:induction false} CurrentModelFieldsByKey(allFields: seq<Field>, itemTypes: map<string, ItemType>,
                                                   currentModelId: string, le: (string, string) -> bool)
    requires TotalPreorder(le)
    requires forall f, g | f in allFields && g in allFields && IsSupportedIn(f, currentModelId)
                           && IsSupportedIn(g, currentModelId) && f.apiKey == g.apiKey :: f == g
    ensures var r := CurrentModelFields(allFields, itemTypes, currentModelId, le);
            r.Ok? ==> forall f | f in allFields && IsSupportedIn(f, currentModelId) && !OmittedLink(f) ::
                        && f.apiKey in r.value
                        && r.value[f.apiKey].field == f
                        && (f.fieldType == "link" ==>
                              && r.value[f.apiKey].Linked?
                              && r.value[f.apiKey].relatedModels.Keys == TargetKeys(f.linkTargets.value, itemTypes)
                              && forall k | k in r.value[f.apiKey].relatedModels ::
                                   var m := r.value[f.apiKey].relatedModels[k];
                                   && m.model.apiKey == k
                                   && IsTargetModel(m.model, f.linkTargets.value, itemTypes)
                                   && m.fields == FieldsByApiKey(GetSupportedFields(allFields, m.model.id, le)))
  {
    var r := CurrentModelFields(allFields, itemTypes, currentModelId, le);
    var supported := GetSupportedFields(allFields, currentModelId, le);
    if r.Ok? {
      forall f | f in allFields && IsSupportedIn(f, currentModelId) && !OmittedLink(f)
        ensures f.apiKey in r.value && r.value[f.apiKey].field == f
        ensures f.fieldType == "link" ==>
                  && r.value[f.apiKey].Linked?
                  && RelatedModels(f.linkTargets.value, itemTypes, allFields, le) == Ok(r.value[f.apiKey].relatedModels)
      {
        assert f in supported;
        assert f.apiKey in KeptKeys(supported);
        assert CarriesRelatedModels(r.value[f.apiKey], itemTypes, allFields, le);
      }
    }
  }
}
