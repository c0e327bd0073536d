/** An atom read from JSON, seen from the JSON: which inputs are read, and what the view of the atom shows of them. */
module ParsedAtom {
  import opened Common
  import opened Decimal
  import opened Json
  import opened Ots
  import opened Atom
  import opened AtomHash
  import opened Wire
  import opened WireMolecule
  import opened HashCoverage

  // ----- meta lists

  /** An element with both a key and a value; the loop skips all others. */
  predicate IsComplete(item: Json) {
    Find(item, "key").Some? && Find(item, "value").Some?
  }

  predicate HasStringKey(item: Json) {
    IsComplete(item) && Find(item, "key").value.JStr?
  }

  function Complete(items: seq<Json>): seq<Json> {
    if items == [] then []
    else
      Complete(items[..|items| - 1]) + if IsComplete(items[|items| - 1]) then [items[|items| - 1]] else []
  }

  /** What a meta field is iterated as: the items of an array, the values of an object, nothing for null. */
  lemma IteratedAs(items: seq<Json>, keys: seq<string>)
    requires |keys| == |items|
    ensures Elements(JArr(items)) == items && Elements(JNull) == []
    ensures Elements(JObj(seq(|items|, i requires 0 <= i < |items| => (keys[i], items[i])))) == items
  {
  }

  /** What an element becomes: null stays null, a string itself, anything else its printed text. */
  function EntryOf(dump: Json -> string, item: Json): MetaEntry
    requires HasStringKey(item)
  {
    MetaEntry(Find(item, "key").value.s,
      match Find(item, "value").value
      case JNull => None
      case JStr(s) => Some(s)
      case v => Some(dump(v)))
  }

  lemma {:induction false} CompleteElements(items: seq<Json>)
    ensures forall i :: 0 <= i < |Complete(items)| ==> IsComplete(Complete(items)[i])
    ensures forall x :: x in Complete(items) <==> x in items && IsComplete(x)
  {
    hide IsComplete;
    if items != [] {
      var t, x := items[..|items| - 1], items[|items| - 1];
      CompleteElements(t);
      assert items == t + [x];
    }
  }

  /** A meta list is read if and only if every complete element has a string key; it then gives one entry for each
      complete element, in order. */
  lemma {:induction false} MetaIsRead(dump: Json -> string, items: seq<Json>)
    ensures match MetaEntries(dump, items)
            case Ok(entries) =>
              && (forall i :: 0 <= i < |items| && IsComplete(items[i]) ==> HasStringKey(items[i]))
              && |entries| == |Complete(items)|
              && forall i :: 0 <= i < |entries| ==>
                   HasStringKey(Complete(items)[i]) && entries[i] == EntryOf(dump, Complete(items)[i])
            case Err(e) =>
              e == JsonType && exists i :: 0 <= i < |items| && IsComplete(items[i]) && !HasStringKey(items[i])
  {
    if items != [] {
      var t, x := items[..|items| - 1], items[|items| - 1];
      MetaIsRead(dump, t);
      assert items[..|t| + 1] == items && items[|t|] == x;
      if MetaEntries(dump, t).Ok? {
        var entries := MetaEntries(dump, t).value;
        EntriesStep(dump, items, |t|, entries);
        if HasStringKey(x) {
          EntryMade(dump, x);
        }
        hide Find, MetaEntries, MetaText, EntryOf;
        assert forall i :: 0 <= i < |t| ==> items[i] == t[i];
      } else {
        hide Find, HasStringKey, IsComplete;
        var i :| 0 <= i < |t| && IsComplete(t[i]) && !HasStringKey(t[i]);
        assert items[i] == t[i];
      }
    }
  }

  lemma EntryMade(dump: Json -> string, item: Json)
    requires HasStringKey(item)
    ensures var key, value := Find(item, "key").value, Find(item, "value").value;
            EntryOf(dump, item)
            == MetaEntry(key.s, if value.JNull? then None else Some(MetaText(dump, value)))
  {
  }

  /** How the view shows an element. */
  function ItemOf(dump: Json -> string, item: Json): Json
    requires HasStringKey(item)
  {
    MetaItem(Find(item, "key").value.s,
      match Find(item, "value").value
      case JNull => JNull
      case JStr(s) => JStr(s)
      case v => JStr(dump(v)))
  }

  /** The view of a meta list that was read shows the complete elements, item by item. */
  lemma MetaIsShown(dump: Json -> string, items: seq<Json>)
    requires MetaEntries(dump, items).Ok?
    ensures var entries := MetaEntries(dump, items).value;
            var shown := MergeMeta(Present(entries), Nulls(entries), 0);
            && |shown| == |Complete(items)|
            && forall i :: 0 <= i < |shown| ==>
                 HasStringKey(Complete(items)[i]) && shown[i] == ItemOf(dump, Complete(items)[i])
  {
    hide MergeMeta, Present, Nulls, MetaEntries, HasStringKey, Find, Complete;
    var entries := MetaEntries(dump, items).value;
    MetaIsRead(dump, items);
    NullMetaLossless(entries);
    forall i | 0 <= i < |entries|
      ensures EntryItem(entries[i]) == ItemOf(dump, Complete(items)[i])
    {
      ItemIsEntry(dump, Complete(items)[i]);
    }
  }

  lemma ItemIsEntry(dump: Json -> string, item: Json)
    requires HasStringKey(item)
    ensures EntryItem(EntryOf(dump, item)) == ItemOf(dump, item)
  {
  }

  // ----- atoms

  predicate IsText(j: Option<Json>) {
    j.None? || j.value.JStr?
  }

  predicate IsTextOrNull(j: Option<Json>) {
    IsText(j) || j.value.JNull?
  }

  predicate IsTime(j: Option<Json>) {
    IsText(j) || j.value.JInt?
  }

  predicate IsMetaList(j: Option<Json>) {
    j.Some? ==> forall x :: x in Elements(j.value) && IsComplete(x) ==> HasStringKey(x)
  }

  /** The text of a field; absent and null are empty. */
  function TextOf(j: Option<Json>): string {
    if j.Some? && j.value.JStr? then j.value.s else ""
  }

  /** The types that the fields of an atom must have. */
  predicate TypesFit(json: Json) {
    && IsText(Find(json, "position")) && IsText(Find(json, "walletAddress"))
    && IsText(Find(json, "isotope")) && IsText(Find(json, "token"))
    && IsTextOrNull(Find(json, "value")) && IsTextOrNull(Find(json, "batchId"))
    && IsTextOrNull(Find(json, "metaType")) && IsTextOrNull(Find(json, "metaId"))
    && IsTextOrNull(Find(json, "otsFragment")) && IsTime(Find(json, "createdAt"))
    && IsMetaList(Find(json, "meta"))
  }

  lemma MetaFieldExact(dump: Json -> string, json: Json)
    ensures MetaField(dump, json).Ok? <==> IsMetaList(Find(json, "meta"))
    ensures MetaField(dump, json).Err? ==> MetaField(dump, json) == Err(JsonType)
  {
    var v := Find(json, "meta");
    hide Find, IsComplete, HasStringKey, MetaEntries, Present, Nulls;
    if v.Some? {
      hide Elements;
      var items := Elements(v.value);
      MetaIsRead(dump, items);
      if MetaEntries(dump, items).Ok? {
        forall x | x in items && IsComplete(x)
          ensures HasStringKey(x)
        {
          var i :| 0 <= i < |items| && items[i] == x;
        }
      }
    }
  }

  /** An atom is read if and only if its fields have these types. */
  lemma AtomIsRead(dump: Json -> string, json: Json, now: int64)
    ensures AtomOfJson(dump, json, now).Ok? <==> TypesFit(json)
    ensures AtomOfJson(dump, json, now).Err? ==> AtomOfJson(dump, json, now) == Err(JsonType)
  {
    MetaFieldExact(dump, json);
    PlainIsRead(json, "position");
    PlainIsRead(json, "walletAddress");
    PlainIsRead(json, "isotope");
    PlainIsRead(json, "token");
    NullableIsRead(json, "value");
    NullableIsRead(json, "batchId");
    NullableIsRead(json, "metaType");
    NullableIsRead(json, "metaId");
    NullableIsRead(json, "otsFragment");
    TimeIsRead(json, now);
    hide Find, TextField, NullableField, MetaField, CreatedField, IsMetaList, IsText, IsTextOrNull, IsTime, IndexField,
      VersionField, EmptyBits;
  }

  lemma PlainIsRead(json: Json, key: string)
    ensures TextField(json, key) == if IsText(Find(json, key)) then Ok(TextOf(Find(json, key))) else Err(JsonType)
  {
    hide Find;
  }

  lemma NullableIsRead(json: Json, key: string)
    ensures NullableField(json, key)
         == if IsTextOrNull(Find(json, key)) then Ok(TextOf(Find(json, key))) else Err(JsonType)
  {
    hide Find;
  }

  lemma TimeIsRead(json: Json, now: int64)
    ensures CreatedField(json, now).Ok? <==> IsTime(Find(json, "createdAt"))
    ensures CreatedField(json, now).Err? ==> CreatedField(json, now) == Err(JsonType)
  {
    hide Find, Strtoll, Cast64;
  }

  /** Every field of the atom comes from the JSON field of its name. */
  lemma FieldsAreRead(dump: Json -> string, json: Json, now: int64)
    requires TypesFit(json)
    ensures var r := AtomOfJson(dump, json, now);
            && r.Ok?
            && var a := r.value;
               && a.position == TextOf(Find(json, "position"))
               && a.walletAddress == TextOf(Find(json, "walletAddress"))
               && a.isotope == TextOf(Find(json, "isotope")) && a.token == TextOf(Find(json, "token"))
               && a.value == TextOf(Find(json, "value")) && a.batchId == TextOf(Find(json, "batchId"))
               && a.metaType == TextOf(Find(json, "metaType")) && a.metaId == TextOf(Find(json, "metaId"))
               && a.otsFragment == TextOf(Find(json, "otsFragment"))
               && (EmptyValue in a.parsedEmpty <==> Find(json, "value") == Some(JStr("")))
               && (EmptyBatchId in a.parsedEmpty <==> Find(json, "batchId") == Some(JStr("")))
               && (EmptyMetaType in a.parsedEmpty <==> Find(json, "metaType") == Some(JStr("")))
               && (EmptyMetaId in a.parsedEmpty <==> Find(json, "metaId") == Some(JStr("")))
  {
    AtomIsRead(dump, json, now);
    PlainIsRead(json, "position");
    PlainIsRead(json, "walletAddress");
    PlainIsRead(json, "isotope");
    PlainIsRead(json, "token");
    NullableIsRead(json, "value");
    NullableIsRead(json, "batchId");
    NullableIsRead(json, "metaType");
    NullableIsRead(json, "metaId");
    NullableIsRead(json, "otsFragment");
    EmptyIsRead(json);
    hide Find, TextField, NullableField, MetaField, CreatedField, IsMetaList, IsText, IsTextOrNull, IsTime, IndexField,
      VersionField, EmptyBits;
  }

  lemma EmptyIsRead(json: Json)
    ensures EmptyValue in EmptyBits(json) <==> Find(json, "value") == Some(JStr(""))
    ensures EmptyBatchId in EmptyBits(json) <==> Find(json, "batchId") == Some(JStr(""))
    ensures EmptyMetaType in EmptyBits(json) <==> Find(json, "metaType") == Some(JStr(""))
    ensures EmptyMetaId in EmptyBits(json) <==> Find(json, "metaId") == Some(JStr(""))
  {
    hide Find;
  }

  /** Time, index and version. */
  lemma NumbersAreRead(dump: Json -> string, json: Json, now: int64, n: int)
    requires TypesFit(json)
    ensures var r := AtomOfJson(dump, json, now);
            && r.Ok?
            && var a := r.value;
               && (Find(json, "createdAt") == None ==> a.createdAt == now)
               && (LONG_MIN <= n <= LONG_MAX && Find(json, "createdAt") in {Some(JInt(n)), Some(JStr(ToString(n)))} ==>
                     a.createdAt == n)
               && (INT_MIN <= n <= INT_MAX && Find(json, "index") == Some(JInt(n)) ==> a.index == n)
               && (Find(json, "index").None? || !Find(json, "index").value.JInt? ==> a.index == 0)
               && match Find(json, "version")
                  case None => a.version == None
                  case Some(v) =>
                    a.version == if v.JStr? then Some(v.s) else if v.JInt? || v.JFloat? then Some(dump(v)) else None
  {
    AtomIsRead(dump, json, now);
    TimeValue(json, now, n);
    IndexValue(json, n);
    hide Find, TextField, NullableField, MetaField, CreatedField, TypesFit, IndexField, EmptyBits, ToString;
  }

  lemma TimeValue(json: Json, now: int64, n: int)
    ensures Find(json, "createdAt") == None ==> CreatedField(json, now) == Ok(now)
    ensures LONG_MIN <= n <= LONG_MAX && Find(json, "createdAt") in {Some(JInt(n)), Some(JStr(ToString(n)))} ==>
      CreatedField(json, now) == Ok(n)
  {
    CastIsIdentity(n);
    if LONG_MIN <= n <= LONG_MAX {
      CreatedReadBack(n);
    }
    hide Find, Strtoll, Cast64, ToString;
  }

  lemma IndexValue(json: Json, n: int)
    ensures INT_MIN <= n <= INT_MAX && Find(json, "index") == Some(JInt(n)) ==> IndexField(json) == n
    ensures Find(json, "index").None? || !Find(json, "index").value.JInt? ==> IndexField(json) == 0
  {
    CastIsIdentity(n);
    hide Find, Cast32;
  }

  // ----- the view of what was read

  /** A plain field is null when it is missing or empty. */
  function PlainShown(j: Option<Json>): Json {
    if TextOf(j) == "" then JNull else JStr(TextOf(j))
  }

  /** An optional field is null when it is missing or null; an empty text stays. */
  function OptionalShown(j: Option<Json>): Json {
    if j.Some? && j.value.JStr? then j.value else JNull
  }

  /** The view of an atom that was read shows each field as the JSON has it: a null or missing optional field as null,
      an empty one as "". */
  lemma ParsedView(dump: Json -> string, json: Json, now: int64)
    requires TypesFit(json)
    ensures var r := AtomOfJson(dump, json, now);
            && r.Ok?
            && var v := AtomView(r.value);
               && Shown(v, "position") == Some(PlainShown(Find(json, "position")))
               && Shown(v, "walletAddress") == Some(PlainShown(Find(json, "walletAddress")))
               && Shown(v, "isotope") == Some(PlainShown(Find(json, "isotope")))
               && Shown(v, "token") == Some(PlainShown(Find(json, "token")))
               && Shown(v, "value") == Some(OptionalShown(Find(json, "value")))
               && Shown(v, "batchId") == Some(OptionalShown(Find(json, "batchId")))
               && Shown(v, "metaType") == Some(OptionalShown(Find(json, "metaType")))
               && Shown(v, "metaId") == Some(OptionalShown(Find(json, "metaId")))
  {
    FieldsAreRead(dump, json, now);
    var a := AtomOfJson(dump, json, now).value;
    ShownValue(a, 0);
    ShownValue(a, 3);
    ShownValue(a, 5);
    ShownValue(a, 6);
    ShownValue(a, 7);
    ShownValue(a, 8);
    ShownValue(a, 9);
    ShownValue(a, 11);
    hide AtomOfJson, TypesFit, Find, AtomView, Shown, MergeMeta, ToString;
  }

  /** And its meta item by item. */
  lemma ParsedMetaShown(dump: Json -> string, json: Json, now: int64)
    requires TypesFit(json)
    ensures var r := AtomOfJson(dump, json, now);
            && r.Ok?
            && var items := if Find(json, "meta").Some? then Elements(Find(json, "meta").value) else [];
               var shown := Shown(AtomView(r.value), "meta");
               && shown.Some? && shown.value.JArr? && |shown.value.items| == |Complete(items)|
               && forall i :: 0 <= i < |Complete(items)| ==>
                    HasStringKey(Complete(items)[i]) && shown.value.items[i] == ItemOf(dump, Complete(items)[i])
  {
    AtomIsRead(dump, json, now);
    var a := AtomOfJson(dump, json, now).value;
    ViewShows(a);
    MetaOfAtom(dump, json, now);
    hide AtomOfJson, AtomView, Shown, MergeMeta, Present, Nulls, MetaEntries, Find, Elements, Complete, TypesFit,
      ItemOf, HasStringKey;
    if Find(json, "meta").Some? {
      MetaIsShown(dump, Elements(Find(json, "meta").value));
    } else {
      NothingShown();
    }
  }

  lemma NothingShown()
    ensures MergeMeta([], [], 0) == [] && Complete([]) == []
  {
  }

  lemma MetaOfAtom(dump: Json -> string, json: Json, now: int64)
    requires AtomOfJson(dump, json, now).Ok?
    ensures var a := AtomOfJson(dump, json, now).value;
            match Find(json, "meta")
            case None => a.meta == [] && a.nullMeta == []
            case Some(v) =>
              && MetaEntries(dump, Elements(v)).Ok?
              && a.meta == Present(MetaEntries(dump, Elements(v)).value)
              && a.nullMeta == Nulls(MetaEntries(dump, Elements(v)).value)
  {
    hide Find, MetaEntries, Present, Nulls, Elements, TextField, NullableField, CreatedField, IndexField, VersionField,
      EmptyBits;
  }

  // ----- molecules

  /** Position, address and isotope are there and not empty. */
  predicate IsNamed(json: Json) {
    TextOf(Find(json, "position")) != "" && TextOf(Find(json, "walletAddress")) != "" &&
    TextOf(Find(json, "isotope")) != ""
  }

  /** A list of atoms is read if and only if each has the right types and its three names. */
  lemma {:induction false} AtomsAreRead(dump: Json -> string, items: seq<Json>, now: nat -> int64)
    ensures match AtomsOfJson(dump, items, now)
            case Ok(atoms) =>
              && |atoms| == |items|
              && forall i :: 0 <= i < |items| ==>
                   TypesFit(items[i]) && IsNamed(items[i]) && AtomOfJson(dump, items[i], now(i)) == Ok(atoms[i])
            case Err(e) => exists i :: 0 <= i < |items| && !(TypesFit(items[i]) && IsNamed(items[i]))
  {
    hide AtomOfJson, TypesFit, IsNamed;
    if items != [] {
      var t := |items| - 1;
      AtomsAreRead(dump, items[..t], now);
      OneAtomIsRead(dump, items[t], now(t));
      if AtomsOfJson(dump, items[..t], now).Err? {
        var i :| 0 <= i < t && !(TypesFit(items[..t][i]) && IsNamed(items[..t][i]));
        assert items[i] == items[..t][i];
      } else {
        forall i | 0 <= i < t
          ensures items[i] == items[..t][i]
        {
        }
      }
    }
  }

  lemma OneAtomIsRead(dump: Json -> string, json: Json, now: int64)
    ensures AtomOfJson(dump, json, now).Ok? <==> TypesFit(json)
    ensures TypesFit(json) ==> (Named(AtomOfJson(dump, json, now).value) <==> IsNamed(json))
  {
    AtomIsRead(dump, json, now);
    hide AtomOfJson, TypesFit, Find;
    if TypesFit(json) {
      FieldsAreRead(dump, json, now);
    }
  }

  predicate IsMolecule(json: Json) {
    && IsText(Find(json, "molecularHash")) && IsTextOrNull(Find(json, "cellSlug")) && IsText(Find(json, "bundle"))
    && IsTextOrNull(Find(json, "status")) && IsText(Find(json, "createdAt"))
    && forall x :: x in AtomsField(json) ==> TypesFit(x) && IsNamed(x)
  }

  /** A molecule is read if and only if its fields have these types and its atoms can be read; it then has the fields
      of the JSON, an absent or null text being empty. */
  lemma MoleculeIsRead(dump: Json -> string, json: Json, made: int64, now: nat -> int64)
    ensures MoleculeOfJson(dump, json, made, now).Ok? <==> IsMolecule(json)
    ensures MoleculeOfJson(dump, json, made, now).Ok? ==>
      var v := MoleculeOfJson(dump, json, made, now).value;
      && v.molecularHash == TextOf(Find(json, "molecularHash")) && v.cellSlug == TextOf(Find(json, "cellSlug"))
      && v.bundle == TextOf(Find(json, "bundle")) && v.status == TextOf(Find(json, "status"))
      && AtomsOfJson(dump, AtomsField(json), now) == Ok(v.atoms) && |v.atoms| == |AtomsField(json)|
      && v.createdAt == if Find(json, "createdAt").None? then made else Strtoll(TextOf(Find(json, "createdAt")))
  {
    hide Find, TextField, NullableField, AtomsOfJson, AtomsField, TypesFit, IsNamed, IsText, IsTextOrNull, Strtoll,
      MoleculeCreated, TextOf;
    PlainIsRead(json, "molecularHash");
    NullableIsRead(json, "cellSlug");
    PlainIsRead(json, "bundle");
    NullableIsRead(json, "status");
    MadeIsRead(json, made);
    var items := AtomsField(json);
    AtomsAreRead(dump, items, now);
    if AtomsOfJson(dump, items, now).Ok? {
      forall x | x in items
        ensures TypesFit(x) && IsNamed(x)
      {
        var i :| 0 <= i < |items| && items[i] == x;
      }
    }
  }

  lemma MadeIsRead(json: Json, made: int64)
    ensures MoleculeCreated(json, made).Ok? <==> IsText(Find(json, "createdAt"))
    ensures MoleculeCreated(json, made).Ok? ==>
      MoleculeCreated(json, made).value
      == if Find(json, "createdAt").None? then made else Strtoll(TextOf(Find(json, "createdAt")))
  {
    hide Find, Strtoll;
  }
}
