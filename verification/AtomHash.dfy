/** The Version4 view of a molecule, the text that the molecular hash covers, and the hash itself. */
module AtomHash {
  import opened Common
  import opened Numerals
  import opened Hex
  import opened Decimal
  import opened Json
  import opened Ots
  import opened BaseConvert
  import opened Base17
  import opened StableSort
  import opened Atom

  // ----- the Version4 view

  /** An optional field parsed as "" stays "", every other empty field is null. */
  function Optional(a: Atom, s: string, f: EmptyField): Json {
    if f in a.parsedEmpty then JStr(s) else Field(s)
  }

  /** The view of one atom, its twelve single-key objects, around its merged meta items. */
  function ViewAround(a: Atom, meta: seq<Json>): Json {
    JArr([
      Entry("batchId", Optional(a, a.batchId, EmptyBatchId)),
      Entry("createdAt", JStr(ToString(a.createdAt))),
      Entry("index", JInt(a.index)),
      Entry("isotope", Field(a.isotope)),
      Entry("meta", JArr(meta)),
      Entry("metaId", Optional(a, a.metaId, EmptyMetaId)),
      Entry("metaType", Optional(a, a.metaType, EmptyMetaType)),
      Entry("position", Field(a.position)),
      Entry("token", Field(a.token)),
      Entry("value", Optional(a, a.value, EmptyValue)),
      Entry("version", if a.version.Some? then JStr(a.version.value) else JNull),
      Entry("walletAddress", Field(a.walletAddress)) ])
  }

  function AtomView(a: Atom): Json {
    ViewAround(a, MergeMeta(a.meta, a.nullMeta, 0))
  }

  function AtomIndex(a: Atom): int {
    a.index
  }

  /** The views in index order; atoms with equal indices keep their order. */
  function Views(atoms: seq<Atom>): seq<Json> {
    Map(AtomView, Sort(AtomIndex, atoms))
  }

  /** The sorted order comes from std::stable_sort. */
  method Version4Views(atoms: seq<Atom>) returns (views: seq<Json>)
    ensures views == Views(atoms)
  {
    var sorted := Sort(AtomIndex, atoms);
    views := [];
    for i := 0 to |sorted|
      invariant views == Views(atoms)[..i]
    {
      var meta := MergeMetaItems(sorted[i].meta, sorted[i].nullMeta);
      assert Views(atoms)[i] == AtomView(sorted[i]);
      assert Views(atoms)[..i + 1] == Views(atoms)[..i] + [Views(atoms)[i]];
      views := views + [ViewAround(sorted[i], meta)];
    }
  }

  /** The index that a view shows. */
  function ViewIndex(v: Json): int {
    if v.JArr? && |v.items| > 2 && v.items[2].JObj? && |v.items[2].fields| > 0 && v.items[2].fields[0].1.JInt?
    then v.items[2].fields[0].1.n else 0
  }

  lemma ViewIndexIs()
    ensures forall a: Atom :: ViewIndex(AtomView(a)) == AtomIndex(a)
  {
  }

  /** Two atom lists have the same view exactly when, for every index, the views of the atoms with that index are the
      same and come in the same order. */
  lemma ViewOrderExact(xs: seq<Atom>, ys: seq<Atom>)
    ensures Views(xs) == Views(ys) <==> SameBuckets(ViewIndex, Map(AtomView, xs), Map(AtomView, ys))
  {
    ViewIndexIs();
    hide AtomView, ViewIndex, Sort, Map;
    SortMap(AtomIndex, ViewIndex, AtomView, xs);
    SortMap(AtomIndex, ViewIndex, AtomView, ys);
    SortEqual(ViewIndex, Map(AtomView, xs), Map(AtomView, ys));
  }

  /** With pairwise distinct indices the order of the atoms does not matter. */
  lemma ViewOrderFree(xs: seq<Atom>, ys: seq<Atom>)
    requires DistinctKeys(AtomIndex, xs) && DistinctKeys(AtomIndex, ys) && multiset(xs) == multiset(ys)
    ensures Views(xs) == Views(ys)
  {
    forall x
      ensures x in xs <==> x in ys
    {
      assert x in xs <==> x in multiset(xs);
      assert x in ys <==> x in multiset(ys);
    }
    SortOfDistinct(AtomIndex, xs, ys);
  }

  /** Atoms that share an index stay in list order: exchanging two of them, wherever they stand in a list, keeps the
      view if and only if they have the same view. */
  lemma TiedAtomsKeepOrder(xs: seq<Atom>, a: Atom, ys: seq<Atom>, b: Atom, zs: seq<Atom>)
    requires a.index == b.index
    ensures Views(xs + [a] + ys + [b] + zs) == Views(xs + [b] + ys + [a] + zs) <==> AtomView(a) == AtomView(b)
  {
    ViewIndexIs();
    hide AtomView, ViewIndex, Views;
    var l, r := xs + [a] + ys + [b] + zs, xs + [b] + ys + [a] + zs;
    var k := AtomIndex(a);
    ViewOrderExact(l, r);
    MapFive(AtomView, xs, a, ys, b, zs);
    MapFive(AtomView, xs, b, ys, a, zs);
    if AtomView(a) == AtomView(b) {
      assert Map(AtomView, l) == Map(AtomView, r);
    } else {
      BucketFive(ViewIndex, Map(AtomView, xs), AtomView(a), Map(AtomView, ys), AtomView(b), Map(AtomView, zs), k);
      BucketFive(ViewIndex, Map(AtomView, xs), AtomView(b), Map(AtomView, ys), AtomView(a), Map(AtomView, zs), k);
      var before := Bucket(ViewIndex, Map(AtomView, xs), k);
      assert Bucket(ViewIndex, Map(AtomView, l), k)[|before|] == AtomView(a);
      assert Bucket(ViewIndex, Map(AtomView, r), k)[|before|] == AtomView(b);
    }
  }

  // ----- the molecular hash

  /** Every atom carries a version, whatever it is. */
  predicate Versioned(atoms: seq<Atom>) {
    atoms != [] && forall i :: 0 <= i < |atoms| ==> atoms[i].version.Some?
  }

  /** The sponge after all keys and values of a meta list. */
  function AppendMeta(sponge: string, meta: seq<(string, string)>): string {
    if meta == [] then sponge
    else AppendMeta(sponge, meta[..|meta| - 1]) + meta[|meta| - 1].0 + meta[|meta| - 1].1
  }

  /** The sponge after one of n atoms: an empty optional field adds nothing. */
  function AppendAtom(sponge: string, n: nat, a: Atom): string {
    AppendMeta(AppendFields(sponge, n, a), a.meta) + ToString(a.createdAt)
  }

  function AppendFields(sponge: string, n: nat, a: Atom): string {
    sponge + NatText(n) + a.position + a.walletAddress + a.isotope + a.token + a.value + a.batchId + a.metaType
        + a.metaId
  }

  function Sponge(n: nat, atoms: seq<Atom>): string {
    if atoms == [] then "" else AppendAtom(Sponge(n, atoms[..|atoms| - 1]), n, atoms[|atoms| - 1])
  }

  /** The text that is hashed; dump prints JSON. */
  function HashInput(dump: Json -> string, atoms: seq<Atom>): string {
    if Versioned(atoms) then dump(JArr(Views(atoms))) else Sponge(|atoms|, atoms)
  }

  function HashHex(xof: Xof, dump: Json -> string, atoms: seq<Atom>): (h: string)
    ensures |h| == 64 && LowerHex(h) && AllHex(h)
  {
    LowerIsHex(ToHex(xof(HashInput(dump, atoms), 32)));
    ToHex(xof(HashInput(dump, atoms), 32))
  }

  /** The molecular hash. */
  function HashBase17(xof: Xof, dump: Json -> string, atoms: seq<Atom>): string {
    ToBase17(HashHex(xof, dump, atoms))
  }

  method AppendOptional(sponge: string, field: string) returns (out: string)
    ensures out == sponge + field
  {
    out := sponge;
    if field != "" {
      out := out + field;
    } else {
      assert sponge + field == sponge;
    }
  }

  /** Appending one atom to the sponge, field by field. */
  method AbsorbAtom(sponge: string, n: nat, a: Atom) returns (out: string)
    ensures out == AppendAtom(sponge, n, a)
  {
    hide NatText, ToString;
    out := sponge + NatText(n) + a.position + a.walletAddress + a.isotope;
    out := AppendOptional(out, a.token);
    out := AppendOptional(out, a.value);
    out := AppendOptional(out, a.batchId);
    out := AppendOptional(out, a.metaType);
    out := AppendOptional(out, a.metaId);
    ghost var fields := AppendFields(sponge, n, a);
    for i := 0 to |a.meta|
      invariant out == AppendMeta(fields, a.meta[..i])
    {
      assert a.meta[..i + 1][..i] == a.meta[..i];
      out := out + a.meta[i].0;
      out := out + a.meta[i].1;
    }
    assert a.meta[..|a.meta|] == a.meta;
    out := out + ToString(a.createdAt);
  }

  method HashAtoms(xof: Xof, dump: Json -> string, atoms: seq<Atom>) returns (hash: seq<byte>)
    ensures hash == xof(HashInput(dump, atoms), 32)
  {
    hide AppendAtom, Views;
    var versioned := atoms != [];
    for i := 0 to |atoms|
      invariant versioned == (atoms != [] && forall j :: 0 <= j < i ==> atoms[j].version.Some?)
    {
      versioned := versioned && atoms[i].version.Some?;
    }
    if versioned {
      var views := Version4Views(atoms);
      return xof(dump(JArr(views)), 32);
    }
    var sponge := "";
    for i := 0 to |atoms|
      invariant sponge == Sponge(|atoms|, atoms[..i])
    {
      assert atoms[..i + 1][..i] == atoms[..i];
      sponge := AbsorbAtom(sponge, |atoms|, atoms[i]);
    }
    assert atoms[..|atoms|] == atoms;
    return xof(sponge, 32);
  }

  method HashAtomsBase17(xof: Xof, dump: Json -> string, atoms: seq<Atom>) returns (hash: string)
    ensures hash == HashBase17(xof, dump, atoms)
  {
    hide HashInput, Numeral;
    var digest := HashAtoms(xof, dump, atoms);
    var hex := ToHexString(digest);
    assert hex == HashHex(xof, dump, atoms);
    var converted := CharsetBaseConvert(hex, 16, 17, Some(SYMBOLS));
    SymbolTable(0);
    return Pad64(converted.value);
  }

  /** Every atom list hashes to a signable text, whose 64 symbols enumerate completely. */
  lemma HashIsSignable(xof: Xof, dump: Json -> string, atoms: seq<Atom>)
    ensures Signable(HashBase17(xof, dump, atoms))
    ensures |Enumerated(HashBase17(xof, dump, atoms))| == 64
    ensures Value(Digits17(HashBase17(xof, dump, atoms)), 17) == HexNumber(HashHex(xof, dump, atoms))
  {
    DigestIsSignable(HashHex(xof, dump, atoms));
    EnumeratedComplete(HashBase17(xof, dump, atoms));
  }

  /** Two hashes are equal exactly when the digests are. */
  lemma HashSeparatesDigests(xof: Xof, dump: Json -> string, xs: seq<Atom>, ys: seq<Atom>)
    ensures HashBase17(xof, dump, xs) == HashBase17(xof, dump, ys) <==> HashHex(xof, dump, xs) == HashHex(xof, dump, ys)
  {
    var x, y := HashHex(xof, dump, xs), HashHex(xof, dump, ys);
    DigestInjective(x, y);
    LowerOfLower(x);
    LowerOfLower(y);
  }

  lemma LowerOfLower(s: string)
    requires LowerHex(s)
    ensures Lower(s) == s
  {
  }

  /** The parts of an atom that the hash may depend on. */
  predicate SameButFragment(a: Atom, b: Atom) {
    a.(otsFragment := "") == b.(otsFragment := "")
  }

  predicate AllSameButFragment(xs: seq<Atom>, ys: seq<Atom>) {
    |xs| == |ys| && forall i :: 0 <= i < |xs| ==> SameButFragment(xs[i], ys[i])
  }

  lemma {:induction false} SpongeIgnoresFragments(n: nat, xs: seq<Atom>, ys: seq<Atom>)
    requires AllSameButFragment(xs, ys)
    ensures Sponge(n, xs) == Sponge(n, ys)
  {
    if xs != [] {
      var t := |xs| - 1;
      SpongeIgnoresFragments(n, xs[..t], ys[..t]);
      assert SameButFragment(xs[t], ys[t]);
      SameText(Sponge(n, xs[..t]), n, xs[t], ys[t]);
      hide AppendAtom;
    }
  }

  lemma SameText(sponge: string, n: nat, a: Atom, b: Atom)
    requires SameButFragment(a, b)
    ensures AppendAtom(sponge, n, a) == AppendAtom(sponge, n, b) && AtomView(a) == AtomView(b) && a.version == b.version
  {
    assert a == b.(otsFragment := a.otsFragment);
  }

  /** The hash does not depend on the signature fragments. */
  lemma HashIgnoresFragments(xof: Xof, dump: Json -> string, xs: seq<Atom>, ys: seq<Atom>)
    requires AllSameButFragment(xs, ys)
    ensures HashInput(dump, xs) == HashInput(dump, ys)
    ensures HashBase17(xof, dump, xs) == HashBase17(xof, dump, ys)
  {
    SpongeIgnoresFragments(|xs|, xs, ys);
    forall i | 0 <= i < |xs|
      ensures AtomView(xs[i]) == AtomView(ys[i]) && xs[i].version == ys[i].version
    {
      assert SameButFragment(xs[i], ys[i]);
      SameText("", 0, xs[i], ys[i]);
    }
    hide AtomView, AppendAtom, SameButFragment;
    assert Map(AtomView, xs) == Map(AtomView, ys);
    ViewsOfMapped(xs, ys);
    assert Versioned(xs) == Versioned(ys);
  }

  lemma ViewsOfMapped(xs: seq<Atom>, ys: seq<Atom>)
    requires Map(AtomView, xs) == Map(AtomView, ys)
    ensures Views(xs) == Views(ys)
  {
    ViewIndexIs();
    hide AtomView, ViewIndex, Sort, Map;
    SortMap(AtomIndex, ViewIndex, AtomView, xs);
    SortMap(AtomIndex, ViewIndex, AtomView, ys);
  }

  /** A versioned molecule with pairwise distinct atom indices hashes the same in every order of its atoms. */
  lemma HashOrderFree(xof: Xof, dump: Json -> string, xs: seq<Atom>, ys: seq<Atom>)
    requires Versioned(xs) && DistinctKeys(AtomIndex, xs) && DistinctKeys(AtomIndex, ys) && multiset(xs) == multiset(ys)
    ensures HashBase17(xof, dump, xs) == HashBase17(xof, dump, ys)
  {
    ViewOrderFree(xs, ys);
    forall i | 0 <= i < |ys|
      ensures ys[i].version.Some?
    {
      assert ys[i] in multiset(ys);
      assert ys[i] in xs;
    }
    assert |xs| == |multiset(xs)| == |multiset(ys)| == |ys|;
    hide Views, Sponge;
    assert HashInput(dump, xs) == HashInput(dump, ys);
  }
}
