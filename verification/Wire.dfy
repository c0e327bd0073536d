/** The JSON form of atoms and molecules: toJson, jsonToObject, and what a molecule loses between them. */
module Wire {
  import opened Common
  import opened Decimal
  import opened Json
  import opened Atom

  // ----- reading an atom

  /** A string field; absent is "", anything but a string is an error. */
  function TextField(json: Json, key: string): Result<string> {
    match Find(json, key)
    case None => Ok("")
    case Some(v) => GetString(v)
  }

  /** A string field that may be null, which reads as absent. */
  function NullableField(json: Json, key: string): Result<string> {
    match Find(json, key)
    case None => Ok("")
    case Some(v) => if v.JNull? then Ok("") else GetString(v)
  }

  /** The field is there as "". */
  predicate ReadsEmpty(json: Json, key: string) {
    Find(json, key) == Some(JStr(""))
  }

  function EmptyBits(json: Json): set<EmptyField> {
    (if ReadsEmpty(json, "value") then {EmptyValue} else {})
    + (if ReadsEmpty(json, "batchId") then {EmptyBatchId} else {})
    + (if ReadsEmpty(json, "metaType") then {EmptyMetaType} else {})
    + (if ReadsEmpty(json, "metaId") then {EmptyMetaId} else {})
  }

  function MetaField(dump: Json -> string, json: Json): Result<(seq<(string, string)>, seq<(nat, string)>)> {
    match Find(json, "meta")
    case None => Ok(([], []))
    case Some(v) =>
      var entries :- MetaEntries(dump, Elements(v));
      Ok((Present(entries), Nulls(entries)))
  }

  /** An integer, or a string read by strtoll; now when absent. */
  function CreatedField(json: Json, now: int64): Result<int64> {
    match Find(json, "createdAt")
    case None => Ok(now)
    case Some(v) =>
      if v.JInt? then Ok(Cast64(v.n))
      else
        var s :- GetString(v);
        Ok(Strtoll(s))
  }

  /** Anything but an integer leaves the index 0. */
  function IndexField(json: Json): int32 {
    match Find(json, "index")
    case Some(JInt(n)) => Cast32(n)
    case _ => 0
  }

  /** A string, or a number as its text; anything else is no version. */
  function VersionField(dump: Json -> string, json: Json): Option<string> {
    match Find(json, "version")
    case None => None
    case Some(v) => if v.JStr? then Some(v.s) else if v.JInt? || v.JFloat? then Some(dump(v)) else None
  }

  /** Atom::jsonToObject; the only error is a field of the wrong type. */
  function AtomOfJson(dump: Json -> string, json: Json, now: int64): Result<Atom> {
    var position :- TextField(json, "position");
    var walletAddress :- TextField(json, "walletAddress");
    var isotope :- TextField(json, "isotope");
    var token :- TextField(json, "token");
    var value :- NullableField(json, "value");
    var batchId :- NullableField(json, "batchId");
    var metaType :- NullableField(json, "metaType");
    var metaId :- NullableField(json, "metaId");
    var meta :- MetaField(dump, json);
    var otsFragment :- NullableField(json, "otsFragment");
    var createdAt :- CreatedField(json, now);
    Ok(Atom(position, walletAddress, isotope, token, value, batchId, metaType, metaId, meta.0, otsFragment, createdAt,
            IndexField(json), VersionField(dump, json), meta.1, EmptyBits(json)))
  }

  // ----- writing an atom

  function NullableText(s: string): Json {
    if s == "" then JNull else JStr(s)
  }

  function MetaPair(pair: (string, string)): Json {
    JObj([("key", JStr(pair.0)), ("value", JStr(pair.1))])
  }

  function MetaJson(meta: seq<(string, string)>): (items: seq<Json>)
    ensures |items| == |meta|
  {
    seq(|meta|, i requires 0 <= i < |meta| => MetaPair(meta[i]))
  }

  /** The atom part of toJson: the version only when there is one. */
  function FieldsAround(a: Atom, meta: seq<Json>): seq<(string, Json)> {
    [ ("batchId", NullableText(a.batchId)),
      ("createdAt", JStr(ToString(a.createdAt))),
      ("index", JInt(a.index)),
      ("isotope", JStr(a.isotope)),
      ("meta", JArr(meta)),
      ("metaId", NullableText(a.metaId)),
      ("metaType", NullableText(a.metaType)),
      ("otsFragment", JStr(a.otsFragment)),
      ("position", JStr(a.position)),
      ("token", JStr(a.token)),
      ("value", NullableText(a.value)) ]
    + (if a.version.Some? then [("version", JStr(a.version.value))] else [])
    + [("walletAddress", JStr(a.walletAddress))]
  }

  function AtomFields(a: Atom): seq<(string, Json)> {
    FieldsAround(a, MetaJson(a.meta))
  }

  function AtomJson(a: Atom): Json {
    JObj(AtomFields(a))
  }

  // ----- an atom there and back

  /** What is left of an atom after the wire: null meta items and the difference between "" and null are gone. */
  function WireAtom(a: Atom): Atom {
    a.(nullMeta := [], parsedEmpty := {})
  }

  lemma {:induction false} LookupAt(fields: seq<(string, Json)>, i: nat)
    requires i < |fields| && forall j :: 0 <= j < i ==> fields[j].0 != fields[i].0
    ensures Lookup(fields, fields[i].0) == Some(fields[i].1)
  {
    if i > 0 {
      assert fields[0].0 != fields[i].0;
      LookupAt(fields[1..], i - 1);
    }
  }

  lemma {:induction false} LookupMissing(fields: seq<(string, Json)>, key: string)
    requires forall j :: 0 <= j < |fields| ==> fields[j].0 != key
    ensures Lookup(fields, key) == None
  {
    if fields != [] {
      LookupMissing(fields[1..], key);
    }
  }

  const ATOM_KEYS: seq<string> :=
    ["batchId", "createdAt", "index", "isotope", "meta", "metaId", "metaType", "otsFragment", "position", "token",
     "value", "version", "walletAddress"]

  lemma AtomKeysDistinct(i: nat, j: nat)
    requires i < j < 13
    ensures ATOM_KEYS[i] != ATOM_KEYS[j]
  {
  }

  /** Field i of a written atom; without a version the address moves up one place. */
  lemma AtomFieldFound(a: Atom, i: nat)
    requires i < |AtomFields(a)|
    ensures i < 11 ==> AtomFields(a)[i].0 == ATOM_KEYS[i]
    ensures Find(AtomJson(a), AtomFields(a)[i].0) == Some(AtomFields(a)[i].1)
  {
    var fields := AtomFields(a);
    forall j: nat | j < |fields|
      ensures fields[j].0 == ATOM_KEYS[if a.version.None? && j == 11 then 12 else j]
    {
      hide NullableText, MetaJson, ToString;
    }
    hide AtomFields;
    forall j: nat | j < i
      ensures fields[j].0 != fields[i].0
    {
      AtomKeysDistinct(j, if a.version.None? && i == 11 then 12 else i);
    }
    LookupAt(fields, i);
  }

  lemma NoVersionWritten(a: Atom)
    requires a.version.None?
    ensures Find(AtomJson(a), "version") == None
  {
    var fields := AtomFields(a);
    forall j: nat | j < |fields|
      ensures fields[j].0 != "version"
    {
      hide NullableText, MetaJson, ToString;
    }
    hide AtomFields;
    LookupMissing(fields, "version");
  }

  /** What finding each key of a written atom gives. */
  lemma AtomFinds(a: Atom)
    ensures var j := AtomJson(a);
            && Find(j, "batchId") == Some(NullableText(a.batchId))
            && Find(j, "createdAt") == Some(JStr(ToString(a.createdAt)))
            && Find(j, "index") == Some(JInt(a.index)) && Find(j, "isotope") == Some(JStr(a.isotope))
            && Find(j, "meta") == Some(JArr(MetaJson(a.meta))) && Find(j, "metaId") == Some(NullableText(a.metaId))
            && Find(j, "metaType") == Some(NullableText(a.metaType))
            && Find(j, "otsFragment") == Some(JStr(a.otsFragment))
            && Find(j, "position") == Some(JStr(a.position)) && Find(j, "token") == Some(JStr(a.token))
            && Find(j, "value") == Some(NullableText(a.value))
            && Find(j, "walletAddress") == Some(JStr(a.walletAddress))
            && Find(j, "version") == (if a.version.Some? then Some(JStr(a.version.value)) else None)
  {
    hide NullableText, MetaJson, ToString, Find;
    AtomFieldFound(a, 0);
    AtomFieldFound(a, 1);
    AtomFieldFound(a, 2);
    AtomFieldFound(a, 3);
    AtomFieldFound(a, 4);
    AtomFieldFound(a, 5);
    AtomFieldFound(a, 6);
    AtomFieldFound(a, 7);
    AtomFieldFound(a, 8);
    AtomFieldFound(a, 9);
    AtomFieldFound(a, 10);
    AtomFieldFound(a, 11);
    if a.version.Some? {
      AtomFieldFound(a, 12);
    } else {
      NoVersionWritten(a);
    }
  }

  function PlainEntries(meta: seq<(string, string)>): (entries: seq<MetaEntry>)
    ensures |entries| == |meta|
  {
    seq(|meta|, i requires 0 <= i < |meta| => MetaEntry(meta[i].0, Some(meta[i].1)))
  }

  lemma {:induction false} MetaReadBack(dump: Json -> string, meta: seq<(string, string)>)
    ensures MetaEntries(dump, MetaJson(meta)) == Ok(PlainEntries(meta))
    ensures Present(PlainEntries(meta)) == meta && Nulls(PlainEntries(meta)) == []
  {
    hide MetaEntries, Present, Nulls, MetaPair, Find;
    if meta == [] {
      NothingSplit(dump);
      assert MetaJson(meta) == [] && PlainEntries(meta) == [];
    } else {
      var t, last := meta[..|meta| - 1], meta[|meta| - 1];
      assert meta == t + [last];
      MetaReadBack(dump, t);
      PlainSnoc(t, last);
      var items := MetaJson(meta);
      assert items[..|t|] == MetaJson(t) && items[..|t| + 1] == items && items[|t|] == MetaPair(last);
      hide MetaJson, PlainEntries;
      EntriesStep(dump, items, |t|, PlainEntries(t));
      PairFinds(last);
      SplitSnoc(PlainEntries(t), MetaEntry(last.0, Some(last.1)));
    }
  }

  lemma PlainSnoc(t: seq<(string, string)>, last: (string, string))
    ensures PlainEntries(t + [last]) == PlainEntries(t) + [MetaEntry(last.0, Some(last.1))]
    ensures MetaJson(t + [last]) == MetaJson(t) + [MetaPair(last)]
  {
    hide MetaPair;
  }

  lemma PairFinds(pair: (string, string))
    ensures Find(MetaPair(pair), "key") == Some(JStr(pair.0)) && Find(MetaPair(pair), "value") == Some(JStr(pair.1))
  {
    LookupAt(MetaPair(pair).fields, 1);
  }

  lemma CreatedReadBack(n: int64)
    ensures Strtoll(ToString(n)) == n
  {
    ParseToString(n);
  }

  /** Reading back a written atom gives the atom without its null meta items and empty-field marks, whatever it was. */
  lemma AtomRoundTrip(dump: Json -> string, a: Atom, now: int64)
    ensures AtomOfJson(dump, AtomJson(a), now) == Ok(WireAtom(a))
  {
    AtomFinds(a);
    MetaReadBack(dump, a.meta);
    CreatedReadBack(a.createdAt);
    CastIsIdentity(a.index);
    hide Find, AtomFields, MetaEntries, Present, Nulls, ToString, Strtoll, Cast32, Cast64, MetaJson;
  }

  // ----- the field loop

  /** The fields in the order in which they are looked up. */
  const C_VALUES: seq<string> :=
    ["position", "walletAddress", "isotope", "token", "value", "batchId", "metaType", "metaId", "meta", "otsFragment",
     "createdAt", "index", "version"]

  /** The first i fields have the right types. */
  predicate FieldsRead(dump: Json -> string, json: Json, now: int64, i: nat) {
    && (i > 0 ==> TextField(json, "position").Ok?)
    && (i > 1 ==> TextField(json, "walletAddress").Ok?)
    && (i > 2 ==> TextField(json, "isotope").Ok?)
    && (i > 3 ==> TextField(json, "token").Ok?)
    && (i > 4 ==> NullableField(json, "value").Ok?)
    && (i > 5 ==> NullableField(json, "batchId").Ok?)
    && (i > 6 ==> NullableField(json, "metaType").Ok?)
    && (i > 7 ==> NullableField(json, "metaId").Ok?)
    && (i > 8 ==> MetaField(dump, json).Ok?)
    && (i > 9 ==> NullableField(json, "otsFragment").Ok?)
    && (i > 10 ==> CreatedField(json, now).Ok?)
  }

  /** The atom after the first i fields. */
  function AtomSoFar(dump: Json -> string, json: Json, now: int64, i: nat): Atom
    requires FieldsRead(dump, json, now, i)
  {
    Atom(
      if i > 0 then TextField(json, "position").value else "",
      if i > 1 then TextField(json, "walletAddress").value else "",
      if i > 2 then TextField(json, "isotope").value else "",
      if i > 3 then TextField(json, "token").value else "",
      if i > 4 then NullableField(json, "value").value else "",
      if i > 5 then NullableField(json, "batchId").value else "",
      if i > 6 then NullableField(json, "metaType").value else "",
      if i > 7 then NullableField(json, "metaId").value else "",
      if i > 8 then MetaField(dump, json).value.0 else [],
      if i > 9 then NullableField(json, "otsFragment").value else "",
      if i > 10 then CreatedField(json, now).value else now,
      if i > 11 then IndexField(json) else 0,
      if i > 12 then VersionField(dump, json) else None,
      if i > 8 then MetaField(dump, json).value.1 else [],
      BitsSoFar(json, i))
  }

  function BitsSoFar(json: Json, i: nat): set<EmptyField> {
    (if i > 4 && ReadsEmpty(json, "value") then {EmptyValue} else {})
    + (if i > 5 && ReadsEmpty(json, "batchId") then {EmptyBatchId} else {})
    + (if i > 6 && ReadsEmpty(json, "metaType") then {EmptyMetaType} else {})
    + (if i > 7 && ReadsEmpty(json, "metaId") then {EmptyMetaId} else {})
  }

  /** A mark is set or, by bitset::set(bit, false), left unset. */
  function Mark(bits: set<EmptyField>, f: EmptyField, empty: bool): set<EmptyField> {
    if empty then bits + {f} else bits - {f}
  }

  function MarkOf(i: nat): EmptyField {
    if i == 4 then EmptyValue else if i == 5 then EmptyBatchId else if i == 6 then EmptyMetaType else EmptyMetaId
  }

  lemma BitsStep(json: Json, i: nat)
    requires i < 13
    ensures 4 <= i < 8 ==> BitsSoFar(json, i + 1) == Mark(BitsSoFar(json, i), MarkOf(i), ReadsEmpty(json, C_VALUES[i]))
    ensures !(4 <= i < 8 && ReadsEmpty(json, C_VALUES[i])) ==> BitsSoFar(json, i + 1) == BitsSoFar(json, i)
  {
    hide ReadsEmpty;
  }

  /** What one round of the loop must do: fill in field i, or report the error of the whole. */
  ghost predicate FieldDone(dump: Json -> string, json: Json, now: int64, i: nat, r: Result<Atom>) {
    match r
    case Ok(atom) => FieldsRead(dump, json, now, i + 1) && atom == AtomSoFar(dump, json, now, i + 1)
    case Err(e) => AtomOfJson(dump, json, now) == Err(e)
  }

  /** The first field that cannot be read is the error of the whole. */
  lemma FieldError(dump: Json -> string, json: Json, now: int64, i: nat)
    requires FieldsRead(dump, json, now, i)
    ensures i < 4 && TextField(json, C_VALUES[i]).Err? ==>
         AtomOfJson(dump, json, now) == Err(TextField(json, C_VALUES[i]).error)
    ensures (4 <= i < 8 || i == 9) && NullableField(json, C_VALUES[i]).Err? ==>
      AtomOfJson(dump, json, now) == Err(NullableField(json, C_VALUES[i]).error)
    ensures i == 8 && MetaField(dump, json).Err? ==> AtomOfJson(dump, json, now) == Err(MetaField(dump, json).error)
    ensures i == 10 && CreatedField(json, now).Err? ==>
         AtomOfJson(dump, json, now) == Err(CreatedField(json, now).error)
  {
    hide TextField, NullableField, MetaField, CreatedField, EmptyBits, IndexField, VersionField;
  }

  /** Cases 0 to 3: fields that must be strings. */
  method FillText(dump: Json -> string, json: Json, now: int64, i: nat, atom: Atom) returns (r: Result<Atom>)
    requires i < 4 && FieldsRead(dump, json, now, i) && atom == AtomSoFar(dump, json, now, i)
    ensures FieldDone(dump, json, now, i, r)
  {
    hide MetaEntries, Present, Nulls, Find, Strtoll, Cast32, Cast64, Elements, MetaField, CreatedField, IndexField,
      VersionField, EmptyBits, AtomOfJson, BitsSoFar, Mark;
    FieldError(dump, json, now, i);
    BitsStep(json, i);
    var value := Find(json, C_VALUES[i]);
    if value.None? {
      return Ok(atom);
    }
    var s :- GetString(value.value);
    match i {
      case 0 => return Ok(atom.(position := s));
      case 1 => return Ok(atom.(walletAddress := s));
      case 2 => return Ok(atom.(isotope := s));
      case _ => return Ok(atom.(token := s));
    }
  }

  /** Cases 4 to 7: fields that may be null, and that remember when they were "". */
  method FillNullable(dump: Json -> string, json: Json, now: int64, i: nat, atom: Atom) returns (r: Result<Atom>)
    requires 4 <= i < 8 && FieldsRead(dump, json, now, i) && atom == AtomSoFar(dump, json, now, i)
    ensures FieldDone(dump, json, now, i, r)
  {
    hide MetaEntries, Present, Nulls, Find, Strtoll, Cast32, Cast64, Elements, MetaField, CreatedField, IndexField,
      VersionField, EmptyBits, AtomOfJson, BitsSoFar, Mark;
    FieldError(dump, json, now, i);
    BitsStep(json, i);
    var value := Find(json, C_VALUES[i]);
    if value.None? || value.value.JNull? {
      return Ok(atom);
    }
    var s :- GetString(value.value);
    match i {
      case 4 => return Ok(atom.(value := s, parsedEmpty := Mark(atom.parsedEmpty, EmptyValue, s == "")));
      case 5 => return Ok(atom.(batchId := s, parsedEmpty := Mark(atom.parsedEmpty, EmptyBatchId, s == "")));
      case 6 => return Ok(atom.(metaType := s, parsedEmpty := Mark(atom.parsedEmpty, EmptyMetaType, s == "")));
      case _ => return Ok(atom.(metaId := s, parsedEmpty := Mark(atom.parsedEmpty, EmptyMetaId, s == "")));
    }
  }

  /** Case 8. */
  method FillMeta(dump: Json -> string, json: Json, now: int64, atom: Atom) returns (r: Result<Atom>)
    requires FieldsRead(dump, json, now, 8) && atom == AtomSoFar(dump, json, now, 8)
    ensures FieldDone(dump, json, now, 8, r)
  {
    hide MetaEntries, Present, Nulls, Find, Strtoll, Cast32, Cast64, Elements, EmptyBits, CreatedField, IndexField,
      VersionField, TextField, NullableField, AtomOfJson, BitsSoFar, Mark;
    FieldError(dump, json, now, 8);
    BitsStep(json, 8);
    var value := Find(json, "meta");
    if value.None? {
      return Ok(atom);
    }
    var split := SplitMeta(dump, Elements(value.value));
    if split.Err? {
      return Err(split.error);
    }
    return Ok(atom.(meta := split.value.0, nullMeta := split.value.1));
  }

  /** Case 9: null leaves the fragment empty. */
  method FillFragment(dump: Json -> string, json: Json, now: int64, atom: Atom) returns (r: Result<Atom>)
    requires FieldsRead(dump, json, now, 9) && atom == AtomSoFar(dump, json, now, 9)
    ensures FieldDone(dump, json, now, 9, r)
  {
    hide MetaEntries, Present, Nulls, Find, Strtoll, Cast32, Cast64, Elements, EmptyBits, CreatedField, IndexField,
      VersionField, TextField, MetaField, AtomOfJson, BitsSoFar, Mark;
    FieldError(dump, json, now, 9);
    BitsStep(json, 9);
    var value := Find(json, "otsFragment");
    if value.None? || value.value.JNull? {
      return Ok(atom);
    }
    var s :- GetString(value.value);
    return Ok(atom.(otsFragment := s));
  }

  /** Cases 10 to 12. */
  method FillOther(dump: Json -> string, json: Json, now: int64, i: nat, atom: Atom) returns (r: Result<Atom>)
    requires 10 <= i < 13 && FieldsRead(dump, json, now, i) && atom == AtomSoFar(dump, json, now, i)
    ensures FieldDone(dump, json, now, i, r)
  {
    hide MetaEntries, Present, Nulls, Find, Strtoll, Cast32, Cast64, Elements, EmptyBits, TextField, NullableField,
      MetaField, AtomOfJson, BitsSoFar, Mark;
    FieldError(dump, json, now, i);
    BitsStep(json, i);
    var value := Find(json, C_VALUES[i]);
    if value.None? {
      return Ok(atom);
    }
    var v := value.value;
    match i {
      case 10 =>
        if v.JInt? {
          return Ok(atom.(createdAt := Cast64(v.n)));
        }
        var s :- GetString(v);
        return Ok(atom.(createdAt := Strtoll(s)));
      case 11 =>
        return Ok(if v.JInt? then atom.(index := Cast32(v.n)) else atom);
      case _ =>
        return Ok(if v.JStr? then atom.(version := Some(v.s))
                  else if v.JInt? || v.JFloat? then atom.(version := Some(dump(v)))
                  else atom);
    }
  }

  lemma NothingFilled(dump: Json -> string, json: Json, now: int64)
    ensures FieldsRead(dump, json, now, 0)
    ensures AtomSoFar(dump, json, now, 0) == NewAtom("", "", "", "", "", "", "", "", [], now, 0)
  {
  }

  lemma AllFilled(dump: Json -> string, json: Json, now: int64)
    requires FieldsRead(dump, json, now, 13)
    ensures AtomOfJson(dump, json, now) == Ok(AtomSoFar(dump, json, now, 13))
  {
    hide Find, GetString, TextField, NullableField, MetaField, CreatedField, IndexField, VersionField;
  }

  /** Atom::jsonToObject: the loop over the field names, whose switch is split by kind of field. */
  method JsonToAtom(dump: Json -> string, json: Json, now: int64) returns (r: Result<Atom>)
    ensures r == AtomOfJson(dump, json, now)
  {
    hide FieldsRead, AtomSoFar, AtomOfJson;
    var atom := NewAtom("", "", "", "", "", "", "", "", [], now, 0);
    NothingFilled(dump, json, now);
    for i := 0 to |C_VALUES|
      invariant FieldsRead(dump, json, now, i) && atom == AtomSoFar(dump, json, now, i)
    {
      var filled: Result<Atom>;
      if i < 4 {
        filled := FillText(dump, json, now, i, atom);
      } else if i < 8 {
        filled := FillNullable(dump, json, now, i, atom);
      } else if i == 8 {
        filled := FillMeta(dump, json, now, atom);
      } else if i == 9 {
        filled := FillFragment(dump, json, now, atom);
      } else {
        filled := FillOther(dump, json, now, i, atom);
      }
      if filled.Err? {
        return filled;
      }
      atom := filled.value;
    }
    AllFilled(dump, json, now);
    return Ok(atom);
  }
}
