// Snapshots of native device records, and what a metadata update may change in them
// (device-metadata-state.ts, lines 5-28, 43-82, 98-141; device-metadata-operations.ts, lines 67-99).
module DeviceMetadata {
  import opened Options

  /** What the editor may hand over: plain data, and data that cannot be compared. */
  datatype Native =
    | Nothing
    | Text(text: string)
    | Flag(flag: bool)
    | Number(number: real)
    | Items(items: seq<Native>)
    | Fields(fields: map<string, Native>)
    | Missing
    | Opaque

  /** Undefined fields are dropped; anything else that is not plain data is refused. */
  predicate Plain(value: Native) {
    match value
    case Missing => false
    case Opaque => false
    case Items(items) => forall i :: 0 <= i < |items| ==> Plain(items[i])
    case Fields(fields) => forall k :: k in fields ==> fields[k] == Missing || Plain(fields[k])
    case _ => true
  }

  /** The copy that snapshotDevice takes. */
  function Clone(value: Native): Native
    requires Plain(value)
  {
    match value
    case Items(items) => Items(seq(|items|, i requires 0 <= i < |items| => Clone(items[i])))
    case Fields(fields) => Fields(map k | k in fields && fields[k] != Missing :: Clone(fields[k]))
    case _ => value
  }

  /** No field is undefined, at any depth. */
  predicate Complete(value: Native) {
    match value
    case Missing => false
    case Opaque => false
    case Items(items) => forall i :: 0 <= i < |items| ==> Complete(items[i])
    case Fields(fields) => forall k :: k in fields ==> Complete(fields[k])
    case _ => true
  }

  lemma {:induction false} CloneIsComplete(value: Native)
    requires Plain(value)
    ensures Complete(Clone(value))
  {
    match value
    case Items(items) =>
      forall i | 0 <= i < |items| ensures Complete(Clone(items[i])) {
        CloneIsComplete(items[i]);
      }
    case Fields(fields) =>
      forall k | k in fields && fields[k] != Missing ensures Complete(Clone(fields[k])) {
        CloneIsComplete(fields[k]);
      }
    case _ =>
  }

  /** Taking a snapshot of a snapshot changes nothing. */
  lemma {:induction false} CloneOfComplete(value: Native)
    requires Complete(value)
    ensures Plain(value) && Clone(value) == value
  {
    match value
    case Items(items) =>
      forall i | 0 <= i < |items| ensures Plain(items[i]) && Clone(items[i]) == items[i] {
        CloneOfComplete(items[i]);
      }
    case Fields(fields) =>
      forall k | k in fields ensures Plain(fields[k]) && Clone(fields[k]) == fields[k] && fields[k] != Missing {
        CloneOfComplete(fields[k]);
      }
    case _ =>
  }

  type FieldMap = map<string, Native>

  function Field(fields: FieldMap, key: string): Native {
    if key in fields then fields[key] else Missing
  }

  /** Comparing by the JSON text of sorted snapshots; Missing stands for a field that is not there. */
  predicate SameState(left: Native, right: Native)
    requires (left == Missing || Plain(left)) && (right == Missing || Plain(right))
  {
    Clone(Fields(map["value" := left])) == Clone(Fields(map["value" := right]))
  }

  /** On snapshots, sameness is equality. */
  lemma SameIsEqual(left: Native, right: Native)
    requires left == Missing || Complete(left)
    requires right == Missing || Complete(right)
    ensures (left == Missing || Plain(left)) && (right == Missing || Plain(right))
    ensures SameState(left, right) <==> left == right
  {
    WrappedClone(left);
    WrappedClone(right);
    var l, r := Clone(Fields(map["value" := left])), Clone(Fields(map["value" := right]));
    assert Field(l.fields, "value") == left && Field(r.fields, "value") == right;
  }

  lemma WrappedClone(value: Native)
    requires value == Missing || Complete(value)
    ensures value == Missing || Plain(value)
    ensures Clone(Fields(map["value" := value])) == Fields(if value == Missing then map[] else map["value" := value])
  {
    if value != Missing {
      CloneOfComplete(value);
    }
    var wrapped := map["value" := value];
    assert Clone(Fields(wrapped)).fields == if value == Missing then map[] else map["value" := value];
  }

  // ---------- Device records ----------

  function FieldsOf(value: Native): FieldMap {
    if value.Fields? then value.fields else map[]
  }

  predicate Scalar(value: Native) {
    value.Text? || value.Number? || value.Flag?
  }

  /** The records that readDevice accepts. */
  predicate IsDevice(record: Native) {
    && record.Fields? && Complete(record)
    && Field(record.fields, "property").Fields? && Field(record.fields, "association").Fields?
    && (var d := Field(record.fields, "description"); d.Missing? || d.Nothing? || d.Text?)
    && (var others := Field(record.fields["property"].fields, "otherProperty");
        others.Missing? || (others.Fields? && forall k :: k in others.fields ==> Scalar(others.fields[k])))
  }

  /** The snapshot of what the editor hands over, if it is a device record of this device. */
  method ReadDevice(raw: Native, uuid: string, libraryUuid: string) returns (r: Option<Native>)
    ensures r.Some? <==>
      && raw.Fields? && Plain(raw) && IsDevice(Clone(raw))
      && Field(Clone(raw).fields, "uuid") == Text(uuid) && Field(Clone(raw).fields, "libraryUuid") == Text(libraryUuid)
    ensures r.Some? ==> r.value == Clone(raw)
  {
    if !raw.Fields? || !Plain(raw) {
      return None;
    }
    CloneIsComplete(raw);
    hide Clone, Complete, Plain, Scalar;
    var record := Clone(raw);
    var fields := record.fields;
    if Field(fields, "uuid") != Text(uuid) || Field(fields, "libraryUuid") != Text(libraryUuid) {
      return None;
    }
    var property, association := Field(fields, "property"), Field(fields, "association");
    if !property.Fields? || !association.Fields? {
      return None;
    }
    var description := Field(fields, "description");
    if !description.Missing? && !description.Nothing? && !description.Text? {
      return None;
    }
    var others := Field(property.fields, "otherProperty");
    if others.Missing? {
      return Some(record);
    }
    if !others.Fields? {
      return None;
    }
    var supported := AllScalar(others.fields);
    return if supported then Some(record) else None;
  }

  method AllScalar(values: FieldMap) returns (r: bool)
    ensures r <==> forall k :: k in values ==> Scalar(values[k])
  {
    var todo := values.Keys;
    while todo != {}
      invariant todo <= values.Keys
      invariant forall k :: k in values && k !in todo ==> Scalar(values[k])
    {
      var key :| key in todo;
      todo := todo - {key};
      if !values[key].Text? && !values[key].Number? && !values[key].Flag? {
        return false;
      }
    }
    return true;
  }

  function Property(record: Native): FieldMap
    requires IsDevice(record)
  {
    record.fields["property"].fields
  }

  function Association(record: Native): FieldMap
    requires IsDevice(record)
  {
    record.fields["association"].fields
  }

  /** The custom properties; a missing map counts as empty. */
  function Custom(record: Native): FieldMap
    requires IsDevice(record)
  {
    FieldsOf(Field(Property(record), "otherProperty"))
  }

  datatype Metadata = Metadata(properties: FieldMap, description: Native)

  function DeviceMetadataOf(record: Native): Metadata
    requires IsDevice(record)
  {
    Metadata(Custom(record), Field(record.fields, "description"))
  }

  type Request = map<string, string>

  function Planned(before: Native, requested: Request): Metadata
    requires IsDevice(before)
  {
    Metadata(Custom(before) + map k | k in requested :: Text(requested[k]), DeviceMetadataOf(before).description)
  }

  function AsNative(m: Metadata): Native {
    Fields(map["properties" := Fields(m.properties), "description" := m.description])
  }

  predicate CompleteMetadata(m: Metadata) {
    (forall k :: k in m.properties ==> Complete(m.properties[k])) &&
      (m.description == Missing || Complete(m.description))
  }

  lemma MetadataIsPlain(m: Metadata)
    requires CompleteMetadata(m)
    ensures Plain(AsNative(m))
    ensures var c := Clone(AsNative(m));
            c.Fields? && Field(c.fields, "properties") == Fields(m.properties) &&
              Field(c.fields, "description") == m.description
  {
    CloneOfComplete(Fields(m.properties));
    if m.description != Missing {
      CloneOfComplete(m.description);
    }
  }

  lemma SameMetadataIsEqual(m: Metadata, n: Metadata)
    requires CompleteMetadata(m) && CompleteMetadata(n)
    ensures Plain(AsNative(m)) && Plain(AsNative(n)) && (SameState(AsNative(m), AsNative(n)) <==> m == n)
  {
    hide Clone, Plain;
    MetadataIsPlain(m);
    MetadataIsPlain(n);
    SameByClones(AsNative(m), AsNative(n));
  }

  lemma SameByClones(left: Native, right: Native)
    requires Plain(left) && Plain(right)
    ensures SameState(left, right) <==> Clone(left) == Clone(right)
  {
    PlainIsNotMissing(left);
    PlainIsNotMissing(right);
    var l, r := map["value" := left], map["value" := right];
    assert Clone(Fields(l)).fields == map["value" := Clone(left)];
    assert Clone(Fields(r)).fields == map["value" := Clone(right)];
    assert map["value" := Clone(left)]["value"] == Clone(left) && map["value" := Clone(right)]["value"] == Clone(right);
  }

  lemma PlainIsNotMissing(value: Native)
    requires Plain(value)
    ensures value != Missing
  {
  }

  // ---------- What may change ----------

  /** Custom properties without the requested ones; an empty map is dropped. */
  function StrippedProperty(property: FieldMap, keys: set<string>): FieldMap {
    var others := Field(property, "otherProperty");
    if !others.Fields? then property
    else if others.fields - keys == map[] then property - {"otherProperty"}
    else property["otherProperty" := Fields(others.fields - keys)]
  }

  function StrippedAssociation(association: FieldMap, reinserting: bool): FieldMap {
    if reinserting then association - {"images"} else association
  }

  function WithoutRequested(record: Native, keys: set<string>, reinserting: bool): Native
    requires IsDevice(record)
  {
    Fields(record.fields["property" := Fields(StrippedProperty(Property(record), keys))]
                        ["association" := Fields(StrippedAssociation(Association(record), reinserting))])
  }

  /** The copy is stripped in place, key by key. */
  method StripRequested(record: Native, requested: Request, reinserting: bool) returns (stripped: Native)
    requires IsDevice(record)
    ensures stripped == WithoutRequested(record, requested.Keys, reinserting)
  {
    var association := Association(record);
    if reinserting {
      association := association - {"images"};
    }
    var property := Property(record);
    if Field(property, "otherProperty").Fields? {
      var others := property["otherProperty"].fields;
      var todo := requested.Keys;
      while todo != {}
        invariant todo <= requested.Keys
        invariant others == property["otherProperty"].fields - (requested.Keys - todo)
      {
        var key :| key in todo;
        todo := todo - {key};
        others := others - {key};
      }
      assert requested.Keys - {} == requested.Keys;
      property := if others == map[] then property - {"otherProperty"} else property["otherProperty" := Fields(others)];
    }
    stripped := Fields(record.fields["property" := Fields(property)]["association" := Fields(association)]);
  }

  /** The record with the requested custom properties laid over its own. */
  function Overlaid(record: Native, requested: Request): Native
    requires IsDevice(record)
  {
    var property := Property(record)["otherProperty" := Fields(Planned(record, requested).properties)];
    Fields(record.fields["property" := Fields(property)])
  }

  /** Equal but for the URLs of images, where these may change. */
  predicate SameButImages(left: Native, right: Native, reinserting: bool)
    requires left.Fields? && right.Fields?
    requires Field(left.fields, "association").Fields? && Field(right.fields, "association").Fields?
  {
    if !reinserting then left == right
    else
      left.fields["association" := Fields(left.fields["association"].fields - {"images"})] ==
      right.fields["association" := Fields(right.fields["association"].fields - {"images"})]
  }

  predicate ValuesMatch(before: Native, after: Native, requested: Request)
    requires IsDevice(before) && IsDevice(after)
  {
    MetadataAreComplete(before, after, requested);
    SameState(AsNative(Planned(before, requested)), AsNative(DeviceMetadataOf(after)))
  }

  lemma MetadataAreComplete(before: Native, after: Native, requested: Request)
    requires IsDevice(before) && IsDevice(after)
    ensures CompleteMetadata(Planned(before, requested)) && CompleteMetadata(DeviceMetadataOf(after))
    ensures Plain(AsNative(Planned(before, requested))) && Plain(AsNative(DeviceMetadataOf(after)))
  {
    hide Plain;
    ScalarsAreComplete();
    MetadataIsPlain(Planned(before, requested));
    MetadataIsPlain(DeviceMetadataOf(after));
  }

  lemma ScalarsAreComplete()
    ensures forall v {:trigger Scalar(v)} :: Scalar(v) ==> Complete(v)
    ensures forall s {:trigger Text(s)} :: Complete(Text(s))
    ensures Complete(Nothing)
  {
  }

  /** The kinds of assets that are also compared by name. */
  datatype Group = Thumbnail | Symbol | Footprint | Model | Transform

  /** The fields of a record whose names mark them as assets of a kind; how they are found does not matter here. */
  type AssetFields = (Group, Native) -> Native

  predicate GroupPreserved(g: Group, before: Native, after: Native, keys: set<string>, reinserting: bool,
                           bytesPreserved: bool,
                           assets: AssetFields)
    requires IsDevice(before) && IsDevice(after)
  {
    if g == Thumbnail && reinserting then bytesPreserved
    else assets(g, WithoutRequested(before, keys, reinserting)) == assets(g, WithoutRequested(after, keys, reinserting))
  }

  predicate AllPreserved(before: Native, after: Native, keys: set<string>, reinserting: bool, bytesPreserved: bool,
                         assets: AssetFields)
    requires IsDevice(before) && IsDevice(after)
  {
    && WithoutRequested(before, keys, reinserting) == WithoutRequested(after, keys, reinserting)
    && GroupPreserved(Thumbnail, before, after, keys, reinserting, bytesPreserved, assets)
    && GroupPreserved(Symbol, before, after, keys, reinserting, bytesPreserved, assets)
    && GroupPreserved(Footprint, before, after, keys, reinserting, bytesPreserved, assets)
    && GroupPreserved(Model, before, after, keys, reinserting, bytesPreserved, assets)
    && GroupPreserved(Transform, before, after, keys, reinserting, bytesPreserved, assets)
  }

  predicate Verified(before: Native, after: Native, requested: Request, reinserting: bool, bytesPreserved: bool,
                     assets: AssetFields)
    requires IsDevice(before) && IsDevice(after)
  {
    ValuesMatch(before, after, requested) &&
      AllPreserved(before, after, requested.Keys, reinserting, bytesPreserved, assets)
  }

  predicate OtherIsMap(property: FieldMap) {
    "otherProperty" in property ==> property["otherProperty"].Fields?
  }

  lemma DevicesHaveMaps(record: Native)
    requires IsDevice(record)
    ensures OtherIsMap(Property(record))
  {
    var property := record.fields["property"];
    assert Complete(property);
    assert "otherProperty" in property.fields ==> Complete(property.fields["otherProperty"]);
  }

  lemma OverlaidProperty(before: FieldMap, after: FieldMap, wanted: FieldMap, keys: set<string>)
    requires wanted.Keys >= keys != {}
    requires OtherIsMap(before) && OtherIsMap(after)
    requires wanted - keys == FieldsOf(Field(before, "otherProperty")) - keys
    ensures FieldsOf(Field(after, "otherProperty")) == wanted &&
            StrippedProperty(before, keys) == StrippedProperty(after, keys)
            <==> after == before["otherProperty" := Fields(wanted)]
  {
    hide StrippedProperty;
    if after == before["otherProperty" := Fields(wanted)] {
      OverlayStrips(before, wanted, keys);
    }
    if FieldsOf(Field(after, "otherProperty")) == wanted &&
      StrippedProperty(before, keys) == StrippedProperty(after, keys) {
      var k :| k in keys;
      assert k in wanted;
      StrippedElsewhere(before, keys);
      StrippedElsewhere(after, keys);
      SameByOther(before, after, Fields(wanted));
    }
  }

  lemma OverlayStrips(before: FieldMap, wanted: FieldMap, keys: set<string>)
    requires OtherIsMap(before)
    requires wanted - keys == FieldsOf(Field(before, "otherProperty")) - keys
    ensures StrippedProperty(before["otherProperty" := Fields(wanted)], keys) == StrippedProperty(before, keys)
    ensures FieldsOf(Field(before["otherProperty" := Fields(wanted)], "otherProperty")) == wanted
  {
    var after, rest := before["otherProperty" := Fields(wanted)], wanted - keys;
    StrippedRest(before, keys, rest);
    StrippedRest(after, keys, rest);
    assert after - {"otherProperty"} == before - {"otherProperty"};
    assert after["otherProperty" := Fields(rest)] == before["otherProperty" := Fields(rest)];
  }

  lemma SameByOther(before: FieldMap, after: FieldMap, other: Native)
    requires Field(after, "otherProperty") == other != Missing
    requires before - {"otherProperty"} == after - {"otherProperty"}
    ensures after == before["otherProperty" := other]
  {
    var overlaid := before["otherProperty" := other];
    forall k ensures (k in after <==> k in overlaid) && (k in after ==> after[k] == overlaid[k]) {
      assert k in before - {"otherProperty"} <==> k in after - {"otherProperty"};
      assert k in before && k != "otherProperty" ==> (before - {"otherProperty"})[k] == (after - {"otherProperty"})[k];
    }
  }

  /** Stripping leaves either nothing or what is not requested. */
  lemma StrippedRest(property: FieldMap, keys: set<string>, rest: FieldMap)
    requires OtherIsMap(property)
    requires rest == FieldsOf(Field(property, "otherProperty")) - keys
    ensures StrippedProperty(property, keys) ==
            if rest == map[] then property - {"otherProperty"} else property["otherProperty" := Fields(rest)]
  {
    if "otherProperty" !in property {
      assert property - {"otherProperty"} == property;
    }
  }

  lemma StrippedElsewhere(property: FieldMap, keys: set<string>)
    ensures StrippedProperty(property, keys) - {"otherProperty"} == property - {"otherProperty"}
  {
  }

  lemma RequestedLeavesRest(custom: FieldMap, requested: Request)
    ensures var wanted := custom + map k | k in requested :: Text(requested[k]);
            wanted.Keys >= requested.Keys && wanted - requested.Keys == custom - requested.Keys
  {
  }

  // ---------- The overlay, key by key ----------

  function CustomValue(record: Native, key: string): Native
    requires IsDevice(record)
  {
    Field(FieldsOf(Field(Property(record), "otherProperty")), key)
  }

  /**
   * The custom properties have the requested values where values are requested, and everything else is as it was, but
   * for the URLs of images where these may change.
   */
  ghost predicate LaidOver(before: Native, after: Native, requested: Request, reinserting: bool)
    requires IsDevice(before) && IsDevice(after)
  {
    && (forall k :: k != "property" && k != "association" ==> Field(after.fields, k) == Field(before.fields, k))
    && (forall k :: !(reinserting && k == "images") ==> Field(Association(after), k) == Field(Association(before), k))
    && (forall k :: k != "otherProperty" ==> Field(Property(after), k) == Field(Property(before), k))
    && "otherProperty" in Property(after)
    && (forall k ::
          CustomValue(after, k) == if k in requested then Text(requested[k]) else CustomValue(before, k))
  }

  predicate NothingMissing(fields: FieldMap) {
    forall k :: k in fields ==> fields[k] != Missing
  }

  lemma SameByFields(a: FieldMap, b: FieldMap)
    requires NothingMissing(a) && NothingMissing(b)
    ensures a == b <==> forall k :: Field(a, k) == Field(b, k)
  {
    if forall k :: Field(a, k) == Field(b, k) {
      forall k ensures (k in a <==> k in b) && (k in a ==> a[k] == b[k]) {
        assert Field(a, k) == Field(b, k);
      }
    }
  }

  /** Two maps without some keys are the same exactly if they agree on all others. */
  lemma SameButKeys(a: FieldMap, b: FieldMap, keys: set<string>)
    requires NothingMissing(a) && NothingMissing(b)
    ensures a - keys == b - keys <==> forall k :: k !in keys ==> Field(a, k) == Field(b, k)
  {
    SameByFields(a - keys, b - keys);
    forall k ensures Field(a - keys, k) == (if k in keys then Missing else Field(a, k)) {
    }
    forall k ensures Field(b - keys, k) == (if k in keys then Missing else Field(b, k)) {
    }
  }

  lemma CompleteLacksNothing(value: Native)
    requires Complete(value)
    ensures value != Missing && (value.Fields? ==> NothingMissing(value.fields))
  {
    if value.Fields? {
      forall k | k in value.fields ensures value.fields[k] != Missing {
        assert Complete(value.fields[k]);
      }
    }
  }

  lemma DeviceLacksNothing(record: Native)
    requires IsDevice(record)
    ensures record.Fields? && NothingMissing(record.fields)
    ensures NothingMissing(Property(record)) && NothingMissing(Association(record)) && NothingMissing(Custom(record))
  {
    CompleteLacksNothing(record);
    CompleteLacksNothing(record.fields["property"]);
    CompleteLacksNothing(record.fields["association"]);
    if Field(Property(record), "otherProperty").Fields? {
      CompleteLacksNothing(Property(record)["otherProperty"]);
    }
  }

  lemma PlannedByKeys(before: Native, requested: Request, k: string)
    requires IsDevice(before)
    ensures Field(Planned(before, requested).properties, k) ==
            if k in requested then Text(requested[k]) else CustomValue(before, k)
  {
  }

  lemma PropertyByKeys(before: Native, after: Native, requested: Request)
    requires IsDevice(before) && IsDevice(after)
    ensures Property(after) == Property(before)["otherProperty" := Fields(Planned(before, requested).properties)] <==>
            && (forall k :: k != "otherProperty" ==> Field(Property(after), k) == Field(Property(before), k))
            && "otherProperty" in Property(after)
            && (forall k ::
                  CustomValue(after, k) == if k in requested then Text(requested[k]) else CustomValue(before, k))
  {
    hide IsDevice, Complete, Planned;
    var p, q, wanted := Property(before), Property(after), Planned(before, requested).properties;
    var overlaid := p["otherProperty" := Fields(wanted)];
    DeviceLacksNothing(before);
    DeviceLacksNothing(after);
    DevicesHaveMaps(after);
    WantedLacksNothing(before, requested);
    SameByFields(Custom(after), wanted);
    SameByFields(q, overlaid);
    forall k ensures Field(wanted, k) == if k in requested then Text(requested[k]) else CustomValue(before, k) {
      PlannedByKeys(before, requested, k);
    }
    forall k ensures Field(overlaid, k) == if k == "otherProperty" then Fields(wanted) else Field(p, k) {
    }
    if q == overlaid {
      assert q["otherProperty"] == Fields(wanted) && Custom(after) == wanted;
    }
  }

  lemma WantedLacksNothing(before: Native, requested: Request)
    requires IsDevice(before)
    ensures NothingMissing(Planned(before, requested).properties)
  {
    DeviceLacksNothing(before);
  }

  lemma OverlayIsLaidOver(before: Native, after: Native, requested: Request, reinserting: bool)
    requires IsDevice(before) && IsDevice(after)
    ensures SameButImages(after, Overlaid(before, requested), reinserting) <==>
            LaidOver(before, after, requested, reinserting)
  {
    hide IsDevice, Complete, Planned, Overlaid, SameButImages, CustomValue, StrippedAssociation;
    DeviceLacksNothing(before);
    DeviceLacksNothing(after);
    OverlayEqual(before, after, requested, reinserting);
    PropertyByKeys(before, after, requested);
    SameButKeys(before.fields, after.fields, {"property", "association"});
    AssociationByKeys(Association(before), Association(after), reinserting);
  }

  lemma AssociationByKeys(a: FieldMap, b: FieldMap, reinserting: bool)
    requires NothingMissing(a) && NothingMissing(b)
    ensures StrippedAssociation(a, reinserting) == StrippedAssociation(b, reinserting) <==>
      forall k :: !(reinserting && k == "images") ==> Field(b, k) == Field(a, k)
  {
    if reinserting {
      SameButKeys(a, b, {"images"});
    } else {
      SameByFields(a, b);
    }
  }

  /**
   * An update is verified exactly if the fresh record is the original with the requested properties laid over it, but
   * for the URLs of images where a thumbnail was reinserted; its bytes must then be the same.
   */
  lemma VerifiedMeans(before: Native, after: Native, requested: Request, reinserting: bool, bytesPreserved: bool,
                      assets: AssetFields)
    requires IsDevice(before) && IsDevice(after) && requested.Keys != {}
    ensures Verified(before, after, requested, reinserting, bytesPreserved, assets) <==>
            LaidOver(before, after, requested, reinserting) && (reinserting ==> bytesPreserved)
  {
    hide Complete, Plain, Clone, SameState, StrippedProperty, AsNative, CompleteMetadata, LaidOver;
    OverlayIsLaidOver(before, after, requested, reinserting);
    var keys, wanted := requested.Keys, Planned(before, requested).properties;
    MetadataAreComplete(before, after, requested);
    SameMetadataIsEqual(Planned(before, requested), DeviceMetadataOf(after));
    RequestedLeavesRest(Custom(before), requested);
    DevicesHaveMaps(before);
    DevicesHaveMaps(after);
    OverlaidProperty(Property(before), Property(after), wanted, keys);
    RecordsAgree(before, after, requested, reinserting);
  }

  /** The same, with the verdict already read as equalities. */
  lemma RecordsAgree(before: Native, after: Native, requested: Request, reinserting: bool)
    requires IsDevice(before) && IsDevice(after)
    requires var keys, wanted := requested.Keys, Planned(before, requested).properties;
             Custom(after) == wanted && StrippedProperty(Property(before), keys) ==
               StrippedProperty(Property(after), keys)
             <==> Property(after) == Property(before)["otherProperty" := Fields(wanted)]
    ensures Planned(before, requested) == DeviceMetadataOf(after) &&
            WithoutRequested(before, requested.Keys, reinserting) ==
              WithoutRequested(after, requested.Keys, reinserting)
            <==> SameButImages(after, Overlaid(before, requested), reinserting)
  {
    hide Complete, StrippedProperty;
    var keys, wanted := requested.Keys, Planned(before, requested).properties;
    var b, a := before.fields, after.fields;
    StripsEqual(before, after, keys, reinserting);
    OverlayEqual(before, after, requested, reinserting);
  }

  /** Elsewhere, the two records have the same fields. */
  predicate SameElsewhere(b: FieldMap, a: FieldMap) {
    b - {"property", "association"} == a - {"property", "association"}
  }

  lemma MapsByParts(b: FieldMap, a: FieldMap, p: Native, q: Native, c: Native, d: Native)
    ensures b["property" := p]["association" := c] == a["property" := q]["association" := d] <==>
            p == q && c == d && SameElsewhere(b, a)
  {
    var l, r := b["property" := p]["association" := c], a["property" := q]["association" := d];
    if l == r {
      assert l["property"] == p && r["property"] == q && l["association"] == c && r["association"] == d;
      assert l - {"property", "association"} == b - {"property", "association"};
      assert r - {"property", "association"} == a - {"property", "association"};
    }
    if p == q && c == d && SameElsewhere(b, a) {
      forall k ensures (k in l <==> k in r) && (k in l ==> l[k] == r[k]) {
        assert k in b - {"property", "association"} <==> k in a - {"property", "association"};
        assert k in b && k !in {"property", "association"} ==>
          (b - {"property", "association"})[k] == (a - {"property", "association"})[k];
      }
    }
  }

  lemma StripsEqual(before: Native, after: Native, keys: set<string>, reinserting: bool)
    requires IsDevice(before) && IsDevice(after)
    ensures WithoutRequested(before, keys, reinserting) == WithoutRequested(after, keys, reinserting) <==>
            && StrippedProperty(Property(before), keys) == StrippedProperty(Property(after), keys)
            && StrippedAssociation(Association(before), reinserting) ==
              StrippedAssociation(Association(after), reinserting)
            && SameElsewhere(before.fields, after.fields)
  {
    hide StrippedProperty, StrippedAssociation, Complete, SameElsewhere;
    MapsByParts(before.fields, after.fields,
                Fields(StrippedProperty(Property(before), keys)), Fields(StrippedProperty(Property(after), keys)),
                Fields(StrippedAssociation(Association(before), reinserting)),
                Fields(StrippedAssociation(Association(after), reinserting)));
  }

  lemma OverlayEqual(before: Native, after: Native, requested: Request, reinserting: bool)
    requires IsDevice(before) && IsDevice(after)
    ensures SameButImages(after, Overlaid(before, requested), reinserting) <==>
            && Property(after) == Property(before)["otherProperty" := Fields(Planned(before, requested).properties)]
            && StrippedAssociation(Association(before), reinserting) ==
              StrippedAssociation(Association(after), reinserting)
            && SameElsewhere(before.fields, after.fields)
    ensures SameElsewhere(before.fields, after.fields) ==>
            DeviceMetadataOf(after).description == Planned(before, requested).description
  {
    hide Complete, Planned;
    var wanted := Fields(Property(before)["otherProperty" := Fields(Planned(before, requested).properties)]);
    var b, a := before.fields, after.fields;
    MapsByParts(b, a, wanted, a["property"], Fields(StrippedAssociation(Association(before), reinserting)),
                Fields(StrippedAssociation(Association(after), reinserting)));
    var l := b["property" := wanted];
    assert l["association" := b["association"]] == l;
    assert a["property" := a["property"]] == a && a["association" := a["association"]] == a;
    DescriptionElsewhere(before, after, requested);
  }

  lemma DescriptionElsewhere(before: Native, after: Native, requested: Request)
    requires IsDevice(before) && IsDevice(after)
    ensures SameElsewhere(before.fields, after.fields) ==>
            DeviceMetadataOf(after).description == Planned(before, requested).description
  {
    var b, a := before.fields - {"property", "association"}, after.fields - {"property", "association"};
    assert Field(b, "description") == Field(before.fields, "description");
    assert Field(a, "description") == Field(after.fields, "description");
  }
}
