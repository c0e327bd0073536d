/** The JSON form of a molecule, and what a molecule keeps when it is written and read back. */
module WireMolecule {
  import opened Common
  import opened Decimal
  import opened Json
  import opened Base17
  import opened Ots
  import opened StableSort
  import opened Atom
  import opened AtomHash
  import opened Wallet
  import opened Conservation
  import opened Builders
  import opened Signing
  import opened Verification
  import opened Wire

  /** The fields of a molecule, its wallets aside. */
  datatype MoleculeView = MoleculeView(
    molecularHash: string,
    cellSlug: string,
    bundle: string,
    status: string,
    atoms: seq<Atom>,
    createdAt: int64)

  // ----- writing

  function AtomsJson(atoms: seq<Atom>): (items: seq<Json>)
    ensures |items| == |atoms|
  {
    seq(|atoms|, i requires 0 <= i < |atoms| => AtomJson(atoms[i]))
  }

  /** The balance that toJson writes for the source wallet: std::stoi of a non-empty balance, which may throw. */
  function WrittenBalance(source: Option<WalletView>): Result<int> {
    if source.None? || source.value.balance == "" then Ok(0)
    else
      var n :- Stoi(source.value.balance);
      Ok(n)
  }

  function WalletJson(w: WalletView, balance: int): Json {
    JObj([("address", JStr(w.address)), ("balance", JInt(balance)), ("position", JStr(w.position)),
          ("token", JStr(w.token))])
  }

  function MoleculeFields(v: MoleculeView, source: Option<WalletView>, remainder: Option<WalletView>, balance: int)
    : seq<(string, Json)>
  {
    [ ("atoms", JArr(AtomsJson(v.atoms))),
      ("bundle", JStr(v.bundle)),
      ("cellSlug", NullableText(v.cellSlug)),
      ("createdAt", JStr(ToString(v.createdAt))),
      ("molecularHash", JStr(v.molecularHash)) ]
    + (if remainder.Some? then [("remainderWallet", WalletJson(remainder.value, 0))] else [])
    + (if source.Some? then [("sourceWallet", WalletJson(source.value, balance))] else [])
    + [("status", NullableText(v.status))]
  }

  /** toJson */
  function MoleculeJson(v: MoleculeView, source: Option<WalletView>, remainder: Option<WalletView>): Result<Json> {
    var balance :- WrittenBalance(source);
    Ok(JObj(MoleculeFields(v, source, remainder, balance)))
  }

  /** submitMolecule's JSON: the written molecule without its wallets. */
  function Payload(v: MoleculeView): Json {
    JObj(MoleculeFields(v, None, None, 0))
  }

  /** Erasing both wallets from what is written leaves the same JSON whatever the wallets were. */
  lemma WalletsErased(v: MoleculeView, source: Option<WalletView>, remainder: Option<WalletView>)
    ensures match MoleculeJson(v, source, remainder)
            case Err(e) => WrittenBalance(source) == Err(e)
            case Ok(json) =>
              && WrittenBalance(source).Ok? && json.JObj?
              && JObj(Erase(Erase(json.fields, "sourceWallet"), "remainderWallet")) == Payload(v)
  {
    hide AtomsJson, NullableText, ToString, WalletJson, WrittenBalance, Erase;
    if MoleculeJson(v, source, remainder).Ok? {
      FieldsErased(v, source, remainder, WrittenBalance(source).value);
    }
  }

  lemma FieldsErased(v: MoleculeView, source: Option<WalletView>, remainder: Option<WalletView>, balance: int)
    ensures JObj(Erase(Erase(MoleculeFields(v, source, remainder, balance), "sourceWallet"), "remainderWallet"))
         == Payload(v)
  {
    hide AtomsJson, NullableText, ToString, WalletJson, Erase;
    var head := MoleculeFields(v, None, None, 0)[..5];
    var rem := if remainder.Some? then [("remainderWallet", WalletJson(remainder.value, 0))] else [];
    var src := if source.Some? then [("sourceWallet", WalletJson(source.value, balance))] else [];
    var last := [("status", NullableText(v.status))];
    EraseBetween(head + rem, src, last, "sourceWallet");
    EraseBetween(head, rem, last, "remainderWallet");
    assert MoleculeFields(v, source, remainder, balance) == head + rem + src + last;
    assert Payload(v).fields == head + last;
  }

  // ----- reading

  /** The atoms of a molecule; now(k) is the clock when atom k is made. */
  function AtomsOfJson(dump: Json -> string, items: seq<Json>, now: nat -> int64): Result<seq<Atom>> {
    if items == [] then Ok([])
    else
      var t := |items| - 1;
      var before :- AtomsOfJson(dump, items[..t], now);
      var a :- AtomOfJson(dump, items[t], now(t));
      if !Named(a) then Err(AtomsNotFound) else Ok(before + [a])
  }

  /** The fields that jsonToObject insists on. */
  predicate Named(a: Atom) {
    a.position != "" && a.walletAddress != "" && a.isotope != ""
  }

  function MoleculeCreated(json: Json, made: int64): Result<int64> {
    match Find(json, "createdAt")
    case None => Ok(made)
    case Some(v) =>
      var s :- GetString(v);
      Ok(Strtoll(s))
  }

  function AtomsField(json: Json): seq<Json> {
    match Find(json, "atoms")
    case None => []
    case Some(v) => Elements(v)
  }

  /** Molecule::jsonToObject; made is the clock when the molecule object is made. */
  function MoleculeOfJson(dump: Json -> string, json: Json, made: int64, now: nat -> int64): Result<MoleculeView> {
    var molecularHash :- TextField(json, "molecularHash");
    var cellSlug :- NullableField(json, "cellSlug");
    var bundle :- TextField(json, "bundle");
    var status :- NullableField(json, "status");
    var atoms :- AtomsOfJson(dump, AtomsField(json), now);
    var createdAt :- MoleculeCreated(json, made);
    Ok(MoleculeView(molecularHash, cellSlug, bundle, status, atoms, createdAt))
  }

  // ----- there and back

  predicate AllNamed(atoms: seq<Atom>) {
    forall i :: 0 <= i < |atoms| ==> Named(atoms[i])
  }

  lemma AtomsSnoc(dump: Json -> string, items: seq<Json>, item: Json, now: nat -> int64)
    ensures AtomsOfJson(dump, items + [item], now)
         == match AtomsOfJson(dump, items, now)
            case Err(e) => Err(e)
            case Ok(before) =>
              match AtomOfJson(dump, item, now(|items|))
              case Err(e) => Err(e)
              case Ok(a) => if Named(a) then Ok(before + [a]) else Err(AtomsNotFound)
  {
    hide AtomOfJson, Named;
    assert (items + [item])[..|items|] == items;
  }

  lemma {:induction false} AtomsReadBack(dump: Json -> string, atoms: seq<Atom>, now: nat -> int64)
    ensures AtomsOfJson(dump, AtomsJson(atoms), now) ==
         if AllNamed(atoms) then Ok(Map(WireAtom, atoms)) else Err(AtomsNotFound)
  {
    if atoms == [] {
      NoAtoms(dump, now);
      assert AtomsJson(atoms) == [] && Map(WireAtom, atoms) == [];
    } else {
      hide *;
      var t, a := atoms[..|atoms| - 1], atoms[|atoms| - 1];
      assert atoms == t + [a];
      AtomsReadBack(dump, t, now);
      AtomRoundTrip(dump, a, now(|t|));
      AtomsSnoc(dump, AtomsJson(t), AtomJson(a), now);
      WrittenSnoc(t, a);
      NamedSnoc(t, a);
      NamedKept(a);
    }
  }

  lemma WrittenSnoc(t: seq<Atom>, a: Atom)
    ensures AtomsJson(t + [a]) == AtomsJson(t) + [AtomJson(a)]
    ensures Map(WireAtom, t + [a]) == Map(WireAtom, t) + [WireAtom(a)]
  {
    hide AtomJson, WireAtom;
  }

  lemma NamedSnoc(t: seq<Atom>, a: Atom)
    ensures AllNamed(t + [a]) <==> AllNamed(t) && Named(a)
  {
    hide Named;
    assert (t + [a])[|t|] == a;
    assert forall i :: 0 <= i < |t| ==> (t + [a])[i] == t[i];
  }

  lemma NamedKept(a: Atom)
    ensures Named(WireAtom(a)) <==> Named(a)
  {
  }

  lemma MoleculeFinds(v: MoleculeView, source: Option<WalletView>, remainder: Option<WalletView>, balance: int)
    ensures var j := JObj(MoleculeFields(v, source, remainder, balance));
            && Find(j, "atoms") == Some(JArr(AtomsJson(v.atoms))) && Find(j, "bundle") == Some(JStr(v.bundle))
            && Find(j, "cellSlug") == Some(NullableText(v.cellSlug))
            && Find(j, "createdAt") == Some(JStr(ToString(v.createdAt)))
            && Find(j, "molecularHash") == Some(JStr(v.molecularHash))
            && Find(j, "status") == Some(NullableText(v.status))
  {
    hide AtomsJson, NullableText, ToString, WalletJson, Lookup;
    var fields := MoleculeFields(v, source, remainder, balance);
    LookupAt(fields, 0);
    LookupAt(fields, 1);
    LookupAt(fields, 2);
    LookupAt(fields, 3);
    LookupAt(fields, 4);
    LookupAt(fields, |fields| - 1);
  }

  /** The balance written: 0 without one, the integer that a printed int denotes, and an error beyond int. */
  lemma BalanceWritten(source: WalletView, n: int)
    ensures WrittenBalance(None) == Ok(0)
    ensures source.balance == "" ==> WrittenBalance(Some(source)) == Ok(0)
    ensures source.balance == ToString(n) ==>
      WrittenBalance(Some(source)) == if INT_MIN <= n <= INT_MAX then Ok(n) else Err(OutOfRange)
  {
    ParseToString(n);
    assert source.balance == ToString(n) ==> source.balance != "";
    hide Parse, ToString;
  }

  /** The wallets are written with their address, position and token; only the source with its balance. */
  lemma WalletsWritten(v: MoleculeView, source: WalletView, remainder: WalletView)
    requires MoleculeJson(v, Some(source), Some(remainder)).Ok?
    ensures var json := MoleculeJson(v, Some(source), Some(remainder)).value;
            var s, r := Find(json, "sourceWallet"), Find(json, "remainderWallet");
            && s.Some? && WalletShows(s.value, source, WrittenBalance(Some(source)).value)
            && r.Some? && WalletShows(r.value, remainder, 0)
  {
    var balance := WrittenBalance(Some(source)).value;
    var fields := MoleculeFields(v, Some(source), Some(remainder), balance);
    WalletFinds(source, balance);
    WalletFinds(remainder, 0);
    hide AtomsJson, NullableText, ToString, WalletJson, WalletShows, Lookup, WrittenBalance;
    LookupAt(fields, 5);
    LookupAt(fields, 6);
  }

  predicate WalletShows(json: Json, w: WalletView, balance: int) {
    && Find(json, "address") == Some(JStr(w.address)) && Find(json, "position") == Some(JStr(w.position))
    && Find(json, "token") == Some(JStr(w.token)) && Find(json, "balance") == Some(JInt(balance))
  }

  lemma WalletFinds(w: WalletView, balance: int)
    ensures WalletShows(WalletJson(w, balance), w, balance)
  {
    var fields := WalletJson(w, balance).fields;
    hide Lookup;
    LookupAt(fields, 0);
    LookupAt(fields, 1);
    LookupAt(fields, 2);
    LookupAt(fields, 3);
  }

  /** Writing succeeds exactly when the source balance prints, and reading it back succeeds exactly when every atom has
      a position, an address and an isotope. It then gives every field back, and every atom up to its parsing marks. */
  lemma MoleculeRoundTrip(dump: Json -> string, v: MoleculeView, source: Option<WalletView>,
                          remainder: Option<WalletView>, made: int64, now: nat -> int64)
    ensures var written := MoleculeJson(v, source, remainder);
            && (written.Ok? <==> source.Some? && source.value.balance != "" ==> Stoi(source.value.balance).Ok?)
            && (written.Ok? ==>
                  MoleculeOfJson(dump, written.value, made, now)
                  == if AllNamed(v.atoms) then Ok(v.(atoms := Map(WireAtom, v.atoms)))
                     else Err(AtomsNotFound))
  {
    hide AtomsJson, AtomsOfJson, ToString, Strtoll, Stoi, Find, MoleculeFields, AllNamed, Map;
    AtomsReadBack(dump, v.atoms, now);
    CreatedReadBack(v.createdAt);
    var balance := WrittenBalance(source);
    if balance.Ok? {
      MoleculeFinds(v, source, remainder, balance.value);
    }
  }

  /** A fusion is written but never read back, signed or not: its burn atom has no position and no address. */
  lemma FusionNotReadable(dump: Json -> string, v: MoleculeView, source: Option<WalletView>,
                          remainder: Option<WalletView>, made: int64, now: nat -> int64, src: WalletView,
                          rec: WalletView, rem: WalletView, ids: seq<string>, newId: string, fused: seq<TokenUnit>,
                          balance: int, newBatch: nat -> string, clock: nat -> int64)
    requires |fused| >= 2 && MoleculeJson(v, source, remainder).Ok?
    requires AllSameButFragment(FusionAtoms(dump, src, rec, rem, ids, newId, fused, balance, newBatch, clock), v.atoms)
    ensures MoleculeOfJson(dump, MoleculeJson(v, source, remainder).value, made, now) == Err(AtomsNotFound)
  {
    MoleculeRoundTrip(dump, v, source, remainder, made, now);
    hide MoleculeJson, MoleculeOfJson, UnitsMeta, FusionMeta, ToString, Listed, Unlisted;
    var atoms := FusionAtoms(dump, src, rec, rem, ids, newId, fused, balance, newBatch, clock);
    assert SameButFragment(atoms[1], v.atoms[1]);
    SameFields(atoms[1], v.atoms[1]);
    assert !Named(v.atoms[1]);
  }

  // ----- what the hash and the checks see

  /** No null meta item and no empty field that was parsed as "": the view writes the atom as it would without its
      marks. */
  predicate Unmarked(a: Atom) {
    && a.nullMeta == []
    && (EmptyValue in a.parsedEmpty ==> a.value != "")
    && (EmptyBatchId in a.parsedEmpty ==> a.batchId != "")
    && (EmptyMetaType in a.parsedEmpty ==> a.metaType != "")
    && (EmptyMetaId in a.parsedEmpty ==> a.metaId != "")
  }

  lemma {:induction false} MergeCount(meta: seq<(string, string)>, nulls: seq<(nat, string)>, size: nat)
    ensures |MergeMeta(meta, nulls, size)| == |meta| + |nulls|
    decreases |meta| + |nulls|
  {
    hide MetaItem;
    if meta != [] {
      if nulls != [] && nulls[0].0 <= size {
        MergeCount(meta, nulls[1..], size + 1);
      } else {
        MergeCount(meta[1..], nulls, size + 1);
      }
    }
  }

  lemma OptionalMarked(a: Atom, s: string, f: EmptyField)
    ensures Optional(a, s, f) == Field(s) <==> !(f in a.parsedEmpty && s == "")
  {
  }

  /** The view of an atom survives the wire exactly when the atom carries no effective parsing mark. */
  lemma WireViewExact(a: Atom)
    ensures AtomView(WireAtom(a)) == AtomView(a) <==> Unmarked(a)
  {
    MergeCount(a.meta, a.nullMeta, 0);
    MergeCount(a.meta, [], 0);
    var w := WireAtom(a);
    OptionalMarked(a, a.value, EmptyValue);
    OptionalMarked(a, a.batchId, EmptyBatchId);
    OptionalMarked(a, a.metaType, EmptyMetaType);
    OptionalMarked(a, a.metaId, EmptyMetaId);
    OptionalMarked(w, a.value, EmptyValue);
    OptionalMarked(w, a.batchId, EmptyBatchId);
    OptionalMarked(w, a.metaType, EmptyMetaType);
    OptionalMarked(w, a.metaId, EmptyMetaId);
    hide MergeMeta, Field, Optional, ToString;
    ViewParts(w, MergeMeta(a.meta, [], 0), a, MergeMeta(a.meta, a.nullMeta, 0));
  }

  lemma EntryParts(k: string, v: Json, w: Json)
    ensures Entry(k, v) == Entry(k, w) <==> v == w
  {
    assert Entry(k, v).fields[0].1 == v && Entry(k, w).fields[0].1 == w;
  }

  /** Two views of atoms that agree in all plain fields are equal exactly when their meta and their four optional fields
      are. */
  lemma ViewParts(a: Atom, m: seq<Json>, b: Atom, n: seq<Json>)
    requires a == b.(nullMeta := a.nullMeta, parsedEmpty := a.parsedEmpty)
    ensures ViewAround(a, m) == ViewAround(b, n)
       <==> m == n && Optional(a, a.batchId, EmptyBatchId) == Optional(b, b.batchId, EmptyBatchId)
            && Optional(a, a.metaId, EmptyMetaId) == Optional(b, b.metaId, EmptyMetaId)
            && Optional(a, a.metaType, EmptyMetaType) == Optional(b, b.metaType, EmptyMetaType)
            && Optional(a, a.value, EmptyValue) == Optional(b, b.value, EmptyValue)
  {
    hide Optional, Field, Entry, ToString;
    var x, y := ViewAround(a, m), ViewAround(b, n);
    EntryParts("batchId", Optional(a, a.batchId, EmptyBatchId), Optional(b, b.batchId, EmptyBatchId));
    EntryParts("meta", JArr(m), JArr(n));
    EntryParts("metaId", Optional(a, a.metaId, EmptyMetaId), Optional(b, b.metaId, EmptyMetaId));
    EntryParts("metaType", Optional(a, a.metaType, EmptyMetaType), Optional(b, b.metaType, EmptyMetaType));
    EntryParts("value", Optional(a, a.value, EmptyValue), Optional(b, b.value, EmptyValue));
    if x == y {
      assert x.items[0] == y.items[0] && x.items[4] == y.items[4] && x.items[5] == y.items[5];
      assert x.items[6] == y.items[6] && x.items[9] == y.items[9];
    }
  }

  // ----- what hash and verdict keep

  lemma KeptFields(a: Atom)
    ensures var w := WireAtom(a);
            && w.isotope == a.isotope && w.token == a.token && w.value == a.value
            && w.metaType == a.metaType && w.metaId == a.metaId && w.walletAddress == a.walletAddress
            && w.index == a.index && w.version == a.version && w.otsFragment == a.otsFragment
    ensures forall sponge, n :: AppendAtom(sponge, n, WireAtom(a)) == AppendAtom(sponge, n, a)
  {
  }

  lemma {:induction false} SpongeKept(n: nat, atoms: seq<Atom>)
    ensures Sponge(n, Map(WireAtom, atoms)) == Sponge(n, atoms)
  {
    if atoms != [] {
      var t := |atoms| - 1;
      SpongeKept(n, atoms[..t]);
      assert Map(WireAtom, atoms)[..t] == Map(WireAtom, atoms[..t]);
      KeptFields(atoms[t]);
      hide AppendAtom;
    }
  }

  lemma SortedMembers(atoms: seq<Atom>, a: Atom)
    ensures a in Sort(AtomIndex, atoms) <==> a in atoms
  {
    SortMeaning(AtomIndex, atoms);
    BucketMember(AtomIndex, atoms, a.index, a);
    BucketMember(AtomIndex, Sort(AtomIndex, atoms), a.index, a);
  }

  /** The Version4 view of a molecule survives the wire exactly when no atom carries an effective parsing mark. */
  lemma WireViewsExact(atoms: seq<Atom>)
    ensures Views(Map(WireAtom, atoms)) == Views(atoms) <==> forall i :: 0 <= i < |atoms| ==> Unmarked(atoms[i])
  {
    hide AtomView, Unmarked, Sort;
    SortMap(AtomIndex, AtomIndex, WireAtom, atoms);
    var sorted := Sort(AtomIndex, atoms);
    var before, after := Views(atoms), Views(Map(WireAtom, atoms));
    forall i | 0 <= i < |sorted|
      ensures before[i] == after[i] <==> Unmarked(sorted[i])
    {
      WireViewExact(sorted[i]);
    }
    if before == after {
      forall i | 0 <= i < |atoms|
        ensures Unmarked(atoms[i])
      {
        SortedMembers(atoms, atoms[i]);
        var j :| 0 <= j < |sorted| && sorted[j] == atoms[i];
        assert before[j] == after[j];
      }
    }
    if forall i :: 0 <= i < |atoms| ==> Unmarked(atoms[i]) {
      forall i | 0 <= i < |sorted|
        ensures before[i] == after[i]
      {
        assert sorted[i] in sorted;
        SortedMembers(atoms, sorted[i]);
        var j :| 0 <= j < |atoms| && atoms[j] == sorted[i];
      }
      assert before == after;
    }
  }

  /** Unless all atoms are versioned the hash survives the wire, whatever the atoms were parsed from; versioned
      molecules keep it when no atom carries an effective parsing mark. */
  lemma WireKeepsHash(xof: Xof, dump: Json -> string, atoms: seq<Atom>)
    requires !Versioned(atoms) || forall i :: 0 <= i < |atoms| ==> Unmarked(atoms[i])
    ensures HashBase17(xof, dump, Map(WireAtom, atoms)) == HashBase17(xof, dump, atoms)
  {
    var wired := Map(WireAtom, atoms);
    assert Versioned(wired) == Versioned(atoms) by {
      assert forall i :: 0 <= i < |atoms| ==> wired[i].version == atoms[i].version;
    }
    SpongeKept(|atoms|, atoms);
    WireViewsExact(atoms);
    hide Versioned, Views, Sponge, Unmarked, WireAtom;
    assert HashInput(dump, wired) == HashInput(dump, atoms);
  }

  /** The two views are not printed as one text unless they are one. */
  predicate PrintsApart(dump: Json -> string, x: Json, y: Json) {
    dump(x) == dump(y) ==> x == y
  }

  /** For a versioned molecule the marks are exactly what the hashed text loses. */
  lemma WireInputExact(dump: Json -> string, atoms: seq<Atom>)
    requires Versioned(atoms) && PrintsApart(dump, JArr(Views(Map(WireAtom, atoms))), JArr(Views(atoms)))
    ensures HashInput(dump, Map(WireAtom, atoms)) == HashInput(dump, atoms)
       <==> forall i :: 0 <= i < |atoms| ==> Unmarked(atoms[i])
  {
    var wired := Map(WireAtom, atoms);
    assert Versioned(wired) by {
      assert forall i :: 0 <= i < |atoms| ==> wired[i].version == atoms[i].version;
    }
    WireViewsExact(atoms);
    hide Versioned, Views, Unmarked, WireAtom;
    if dump(JArr(Views(wired))) == dump(JArr(Views(atoms))) {
      assert JArr(Views(wired)) == JArr(Views(atoms));
    }
  }

  lemma {:induction false} ValuesKept(atoms: seq<Atom>, token: string)
    ensures VValues(Map(WireAtom, atoms), token) == VValues(atoms, token)
  {
    if atoms != [] {
      var t := |atoms| - 1;
      ValuesKept(atoms[..t], token);
      assert Map(WireAtom, atoms)[..t] == Map(WireAtom, atoms[..t]);
    }
  }

  lemma {:induction false} CrossSumKept(fl: Floats, atoms: seq<Atom>)
    ensures CrossSum(fl, Map(WireAtom, atoms)) == CrossSum(fl, atoms)
  {
    if atoms != [] {
      var t := |atoms| - 1;
      CrossSumKept(fl, atoms[..t]);
      assert Map(WireAtom, atoms)[t] == WireAtom(atoms[t]);
      assert Map(WireAtom, atoms)[..t] == Map(WireAtom, atoms[..t]);
    }
  }

  lemma {:induction false} ScanKept(fl: Floats, atoms: seq<Atom>, i: nat)
    requires i <= |atoms|
    ensures VScan(fl, Map(WireAtom, atoms), i) == VScan(fl, atoms, i)
    decreases |atoms| - i
  {
    if i < |atoms| {
      ScanKept(fl, atoms, i + 1);
      ValuesKept(atoms, atoms[i].token);
      HeadsKept(atoms, i);
      hide Heads, FloatSum, VValues;
    }
  }

  lemma HeadsKept(atoms: seq<Atom>, i: nat)
    requires i < |atoms|
    ensures Heads(Map(WireAtom, atoms), i) == Heads(atoms, i) && Map(WireAtom, atoms)[i].token == atoms[i].token
  {
    var wired := Map(WireAtom, atoms);
    forall j | 0 <= j < |atoms|
      ensures wired[j].token == atoms[j].token && wired[j].isotope == atoms[j].isotope
    {
      KeptFields(atoms[j]);
    }
  }

  lemma TokenCheckKept(fl: Floats, atoms: seq<Atom>, hash: string)
    ensures TokenIsotopeV(fl, Map(WireAtom, atoms), hash) == TokenIsotopeV(fl, atoms, hash)
  {
    var wired := Map(WireAtom, atoms);
    forall i | 0 <= i < |atoms|
      ensures IsCross(wired[i]) == IsCross(atoms[i]) && CrossWellFormed(fl, wired[i]) == CrossWellFormed(fl, atoms[i])
    {
      KeptFields(atoms[i]);
    }
    CrossSumKept(fl, atoms);
    ScanKept(fl, atoms, 0);
    hide IsCross, CrossWellFormed, CrossSum, VScan, WireAtom;
  }

  lemma {:induction false} FragmentsKept(atoms: seq<Atom>)
    ensures Fragments(Map(WireAtom, atoms)) == Fragments(atoms)
  {
    if atoms != [] {
      var t := |atoms| - 1;
      FragmentsKept(atoms[..t]);
      assert Map(WireAtom, atoms)[..t] == Map(WireAtom, atoms[..t]);
    }
  }

  lemma OtsKept(xof: Xof, atoms: seq<Atom>, hash: string)
    ensures OtsVerdict(xof, Map(WireAtom, atoms), hash) == OtsVerdict(xof, atoms, hash)
  {
    FragmentsKept(atoms);
    hide Fragments, OtsHex, RecoveredAddress, Symbols64, Signable;
    if atoms != [] {
      KeptFields(atoms[0]);
    }
  }

  /** A molecule read back from its JSON has the same molecular hash and the same verify result, accepted or not. */
  lemma WireKeepsVerdict(xof: Xof, dump: Json -> string, fl: Floats, v: MoleculeView, source: Option<WalletView>,
                         remainder: Option<WalletView>, made: int64, now: nat -> int64)
    requires AllNamed(v.atoms) && MoleculeJson(v, source, remainder).Ok?
    requires !Versioned(v.atoms) || forall i :: 0 <= i < |v.atoms| ==> Unmarked(v.atoms[i])
    ensures var back := MoleculeOfJson(dump, MoleculeJson(v, source, remainder).value, made, now);
            && back.Ok?
            && back.value.molecularHash == v.molecularHash
            && HashBase17(xof, dump, back.value.atoms) == HashBase17(xof, dump, v.atoms)
            && (Verifies(xof, dump, fl, back.value.atoms, back.value.molecularHash)
                <==> Verifies(xof, dump, fl, v.atoms, v.molecularHash))
  {
    MoleculeRoundTrip(dump, v, source, remainder, made, now);
    WireKeepsHash(xof, dump, v.atoms);
    TokenCheckKept(fl, v.atoms, v.molecularHash);
    OtsKept(xof, v.atoms, v.molecularHash);
    hide MoleculeJson, MoleculeOfJson, HashBase17, TokenIsotopeV, OtsVerdict, WireAtom, AllNamed, Unmarked, Versioned;
  }

  // ----- the loops

  method WriteMeta(meta: seq<(string, string)>) returns (items: seq<Json>)
    ensures items == MetaJson(meta)
  {
    hide MetaPair;
    items := [];
    for i := 0 to |meta|
      invariant items == MetaJson(meta)[..i]
    {
      assert MetaJson(meta)[..i + 1] == MetaJson(meta)[..i] + [MetaJson(meta)[i]];
      items := items + [MetaPair(meta[i])];
    }
  }

  /** The atoms of a JSON molecule, up to the first one that does not read or lacks a required field. */
  method ReadAtoms(dump: Json -> string, items: seq<Json>, now: nat -> int64) returns (r: Result<seq<Atom>>)
    ensures r == AtomsOfJson(dump, items, now)
  {
    hide AtomOfJson, AtomsOfJson, Named;
    var atoms: seq<Atom> := [];
    NoAtoms(dump, now);
    assert items[..0] == [];
    for i := 0 to |items|
      invariant AtomsOfJson(dump, items[..i], now) == Ok(atoms)
    {
      AtomsSnoc(dump, items[..i], items[i], now);
      assert items[..i + 1] == items[..i] + [items[i]];
      var atom := JsonToAtom(dump, items[i], now(i));
      if atom.Err? {
        UnreadPrefix(dump, items, i + 1, now);
        return Err(atom.error);
      }
      if !Named(atom.value) {
        UnreadPrefix(dump, items, i + 1, now);
        return Err(AtomsNotFound);
      }
      atoms := atoms + [atom.value];
    }
    assert items[..|items|] == items;
    return Ok(atoms);
  }

  lemma NoAtoms(dump: Json -> string, now: nat -> int64)
    ensures AtomsOfJson(dump, [], now) == Ok([])
  {
  }

  lemma {:induction false} UnreadPrefix(dump: Json -> string, items: seq<Json>, n: nat, now: nat -> int64)
    requires n <= |items| && AtomsOfJson(dump, items[..n], now).Err?
    ensures AtomsOfJson(dump, items, now) == AtomsOfJson(dump, items[..n], now)
    decreases |items|
  {
    hide AtomOfJson, AtomsOfJson;
    if n < |items| {
      var t := |items| - 1;
      assert items[..t][..n] == items[..n];
      UnreadPrefix(dump, items[..t], n, now);
      assert items == items[..t] + [items[t]];
      AtomsSnoc(dump, items[..t], items[t], now);
    } else {
      assert items[..n] == items;
    }
  }
}
