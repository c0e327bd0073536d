/** What the molecular hash covers: every hashed field of every atom, each in its place. */
module HashCoverage {
  import opened Common
  import opened Decimal
  import opened Json
  import opened Chunks
  import opened StableSort
  import opened Ots
  import opened Atom
  import opened AtomHash
  import opened KeyDerivation
  import opened Wire
  import opened WireMolecule

  // ----- unversioned molecules: the glued texts

  /** Keys and values of a meta list in turn. */
  function MetaTexts(meta: seq<(string, string)>): (texts: seq<string>)
    ensures |texts| == 2 * |meta|
  {
    if meta == [] then [] else MetaTexts(meta[..|meta| - 1]) + [meta[|meta| - 1].0, meta[|meta| - 1].1]
  }

  function PlainTexts(n: nat, a: Atom): (texts: seq<string>)
    ensures |texts| == 9
  {
    [NatText(n), a.position, a.walletAddress, a.isotope, a.token, a.value, a.batchId, a.metaType, a.metaId]
  }

  /** What an atom of a molecule of n adds to the hashed text, piece by piece. */
  function Texts(n: nat, a: Atom): (texts: seq<string>)
    ensures |texts| == 2 * |a.meta| + 10
  {
    PlainTexts(n, a) + MetaTexts(a.meta) + [ToString(a.createdAt)]
  }

  function AllTexts(n: nat, atoms: seq<Atom>): seq<string> {
    if atoms == [] then [] else AllTexts(n, atoms[..|atoms| - 1]) + Texts(n, atoms[|atoms| - 1])
  }

  lemma {:induction false} ConcatConcat(xs: seq<string>, ys: seq<string>)
    ensures Concat(xs + ys) == Concat(xs) + Concat(ys)
  {
    if xs == [] {
      assert xs + ys == ys;
    } else {
      assert (xs + ys)[1..] == xs[1..] + ys;
      ConcatConcat(xs[1..], ys);
    }
  }

  lemma ConcatOne(s: string)
    ensures Concat([s]) == s
  {
    assert [s][1..] == [];
  }

  lemma {:induction false} MetaTextsGlued(sponge: string, meta: seq<(string, string)>)
    ensures AppendMeta(sponge, meta) == sponge + Concat(MetaTexts(meta))
  {
    if meta != [] {
      var t, last := meta[..|meta| - 1], meta[|meta| - 1];
      MetaTextsGlued(sponge, t);
      hide Concat;
      ConcatConcat(MetaTexts(t), [last.0, last.1]);
      ConcatTwo(last.0, last.1);
    }
  }

  lemma ConcatTwo(s: string, t: string)
    ensures Concat([s, t]) == s + t
  {
    hide Concat;
    ConcatOne(s);
    ConcatSnoc([s], t);
    assert [s] + [t] == [s, t];
  }

  lemma FieldTextsGlued(sponge: string, n: nat, a: Atom)
    ensures AppendFields(sponge, n, a) == sponge + Concat(PlainTexts(n, a))
  {
    hide NatText, Concat;
    var parts := PlainTexts(n, a);
    ConcatNone();
    assert parts[..0] == [] && sponge + "" == sponge && parts[..9] == parts;
    GlueNext(sponge, parts, 0);
    GlueNext(sponge, parts, 1);
    GlueNext(sponge, parts, 2);
    GlueNext(sponge, parts, 3);
    GlueNext(sponge, parts, 4);
    GlueNext(sponge, parts, 5);
    GlueNext(sponge, parts, 6);
    GlueNext(sponge, parts, 7);
    GlueNext(sponge, parts, 8);
  }

  lemma GlueNext(sponge: string, parts: seq<string>, k: nat)
    requires k < |parts|
    ensures sponge + Concat(parts[..k + 1]) == sponge + Concat(parts[..k]) + parts[k]
  {
    hide Concat;
    assert parts[..k + 1] == parts[..k] + [parts[k]];
    ConcatSnoc(parts[..k], parts[k]);
  }

  lemma AtomTextsGlued(sponge: string, n: nat, a: Atom)
    ensures AppendAtom(sponge, n, a) == sponge + Concat(Texts(n, a))
  {
    hide Concat, ToString, AppendFields, AppendMeta, PlainTexts;
    FieldTextsGlued(sponge, n, a);
    MetaTextsGlued(AppendFields(sponge, n, a), a.meta);
    ConcatThree(PlainTexts(n, a), MetaTexts(a.meta), [ToString(a.createdAt)]);
    ConcatOne(ToString(a.createdAt));
  }

  lemma {:induction false} SpongeGlued(n: nat, atoms: seq<Atom>)
    ensures Sponge(n, atoms) == Concat(AllTexts(n, atoms))
  {
    if atoms != [] {
      var t, last := atoms[..|atoms| - 1], atoms[|atoms| - 1];
      SpongeGlued(n, t);
      hide Concat, Texts, AppendAtom;
      AtomTextsGlued(Sponge(n, t), n, last);
      ConcatConcat(AllTexts(n, t), Texts(n, last));
    }
  }

  /** Without versions the hashed text is the fields of all atoms, glued in the order of Texts. */
  lemma HashedTexts(dump: Json -> string, atoms: seq<Atom>)
    requires !Versioned(atoms)
    ensures HashInput(dump, atoms) == Concat(AllTexts(|atoms|, atoms))
  {
    SpongeGlued(|atoms|, atoms);
  }

  /** One atom without a version makes the whole molecule hash as glued texts; otherwise it is the printed view. */
  lemma FormOfHash(dump: Json -> string, atoms: seq<Atom>)
    ensures HashInput(dump, atoms)
         == if atoms != [] && forall i :: 0 <= i < |atoms| ==> atoms[i].version.Some? then dump(JArr(Views(atoms)))
            else Concat(AllTexts(|atoms|, atoms))
  {
    hide Views, Sponge, AllTexts, Concat;
    if !Versioned(atoms) {
      HashedTexts(dump, atoms);
    }
  }

  lemma {:induction false} AllTextsConcat(n: nat, xs: seq<Atom>, ys: seq<Atom>)
    ensures AllTexts(n, xs + ys) == AllTexts(n, xs) + AllTexts(n, ys)
  {
    hide Texts;
    if ys == [] {
      assert xs + ys == xs;
    } else {
      var t, y := ys[..|ys| - 1], ys[|ys| - 1];
      assert (xs + ys)[..|xs + ys| - 1] == xs + t;
      AllTextsConcat(n, xs, t);
    }
  }

  lemma TextsOfOne(n: nat, a: Atom)
    ensures AllTexts(n, [a]) == Texts(n, a)
  {
    hide Texts;
    assert [a][..0] == [] && AllTexts(n, []) == [] && [] + Texts(n, a) == Texts(n, a);
  }

  lemma TextsOfThree(n: nat, xs: seq<Atom>, a: Atom, ys: seq<Atom>)
    ensures AllTexts(n, xs + [a] + ys) == AllTexts(n, xs) + Texts(n, a) + AllTexts(n, ys)
  {
    hide AllTexts, Texts;
    AllTextsConcat(n, xs + [a], ys);
    AllTextsConcat(n, xs, [a]);
    TextsOfOne(n, a);
  }

  lemma ConcatThree(xs: seq<string>, ys: seq<string>, zs: seq<string>)
    ensures Concat(xs + ys + zs) == Concat(xs) + Concat(ys) + Concat(zs)
  {
    hide Concat;
    ConcatConcat(xs + ys, zs);
    ConcatConcat(xs, ys);
  }

  /** The text around one atom. */
  lemma TextAround(dump: Json -> string, n: nat, xs: seq<Atom>, a: Atom, ys: seq<Atom>)
    requires n == |xs| + 1 + |ys| && !Versioned(xs + [a] + ys)
    ensures HashInput(dump, xs + [a] + ys)
         == Concat(AllTexts(n, xs)) + Concat(Texts(n, a)) + Concat(AllTexts(n, ys))
  {
    hide *;
    HashedTexts(dump, xs + [a] + ys);
    TextsOfThree(n, xs, a, ys);
    ConcatThree(AllTexts(n, xs), Texts(n, a), AllTexts(n, ys));
  }

  lemma OnlyTheMiddle(before: string, x: string, y: string, after: string)
    ensures before + x + after == before + y + after <==> x == y
  {
    if before + x + after == before + y + after {
      var s, t := before + x + after, before + y + after;
      assert |x| == |y|;
      assert s[|before|..|before| + |x|] == x && t[|before|..|before| + |y|] == y;
    }
  }

  lemma OneTextChanged(parts: seq<string>, k: nat, s: string)
    requires k < |parts|
    ensures Concat(parts[k := s]) == Concat(parts) <==> s == parts[k]
  {
    hide Concat;
    var after := parts[k := s];
    assert parts == parts[..k] + [parts[k]] + parts[k + 1..];
    assert after == parts[..k] + [s] + parts[k + 1..];
    ConcatThree(parts[..k], [parts[k]], parts[k + 1..]);
    ConcatThree(parts[..k], [s], parts[k + 1..]);
    ConcatOne(parts[k]);
    ConcatOne(s);
    OnlyTheMiddle(Concat(parts[..k]), s, parts[k], Concat(parts[k + 1..]));
  }

  /** The hash of two unversioned molecules that differ in one text of one atom. */
  lemma TextCovered(dump: Json -> string, xs: seq<Atom>, a: Atom, b: Atom, ys: seq<Atom>, k: nat, s: string)
    requires !Versioned(xs + [a] + ys) && !Versioned(xs + [b] + ys)
    requires var n := |xs| + 1 + |ys|; k < |Texts(n, a)| && Texts(n, b) == Texts(n, a)[k := s]
    ensures HashInput(dump, xs + [b] + ys) == HashInput(dump, xs + [a] + ys)
       <==> s == Texts(|xs| + 1 + |ys|, a)[k]
  {
    hide HashInput, Versioned, Texts, Concat;
    var n := |xs| + 1 + |ys|;
    TextAround(dump, n, xs, a, ys);
    TextAround(dump, n, xs, b, ys);
    OneTextChanged(Texts(n, a), k, s);
    OnlyTheMiddle(Concat(AllTexts(n, xs)), Concat(Texts(n, b)), Concat(Texts(n, a)), Concat(AllTexts(n, ys)));
  }

  lemma StillUnversioned(xs: seq<Atom>, a: Atom, b: Atom, ys: seq<Atom>)
    requires a.version == b.version
    ensures Versioned(xs + [a] + ys) <==> Versioned(xs + [b] + ys)
  {
    var l, r := xs + [a] + ys, xs + [b] + ys;
    assert forall i :: 0 <= i < |l| ==> l[i].version == r[i].version;
  }

  /** The plain fields that are hashed, in the order in which they are appended. */
  datatype HashedField =
    | Position | WalletAddress | Isotope | Token | Value | BatchId | MetaType | MetaId

  function FieldOf(a: Atom, f: HashedField): string {
    match f
    case Position => a.position
    case WalletAddress => a.walletAddress
    case Isotope => a.isotope
    case Token => a.token
    case Value => a.value
    case BatchId => a.batchId
    case MetaType => a.metaType
    case MetaId => a.metaId
  }

  function WithField(a: Atom, f: HashedField, s: string): (b: Atom)
    ensures b.version == a.version && b.meta == a.meta && FieldOf(b, f) == s
    ensures forall g :: g != f ==> FieldOf(b, g) == FieldOf(a, g)
  {
    match f
    case Position => a.(position := s)
    case WalletAddress => a.(walletAddress := s)
    case Isotope => a.(isotope := s)
    case Token => a.(token := s)
    case Value => a.(value := s)
    case BatchId => a.(batchId := s)
    case MetaType => a.(metaType := s)
    case MetaId => a.(metaId := s)
  }

  /** Where a field stands among the texts of an atom. */
  function PlaceOf(f: HashedField): nat {
    match f
    case Position => 1
    case WalletAddress => 2
    case Isotope => 3
    case Token => 4
    case Value => 5
    case BatchId => 6
    case MetaType => 7
    case MetaId => 8
  }

  lemma TextsWithField(n: nat, a: Atom, f: HashedField, s: string)
    ensures Texts(n, WithField(a, f, s)) == Texts(n, a)[PlaceOf(f) := s] && Texts(n, a)[PlaceOf(f)] == FieldOf(a, f)
  {
    hide NatText, MetaTexts, ToString;
  }

  /** Without versions, changing a hashed field of one atom keeps the hashed text if and only if the field keeps its
      value. */
  lemma FieldCovered(dump: Json -> string, xs: seq<Atom>, a: Atom, ys: seq<Atom>, f: HashedField, s: string)
    requires !Versioned(xs + [a] + ys)
    ensures HashInput(dump, xs + [WithField(a, f, s)] + ys) == HashInput(dump, xs + [a] + ys) <==> s == FieldOf(a, f)
  {
    hide HashInput, Versioned, Texts, WithField, FieldOf;
    StillUnversioned(xs, a, WithField(a, f, s), ys);
    TextsWithField(|xs| + 1 + |ys|, a, f, s);
    TextCovered(dump, xs, a, WithField(a, f, s), ys, PlaceOf(f), s);
  }

  lemma TextsWithCreatedAt(n: nat, a: Atom, t: int64)
    ensures var k := |Texts(n, a)| - 1;
            Texts(n, a.(createdAt := t)) == Texts(n, a)[k := ToString(t)] && Texts(n, a)[k] == ToString(a.createdAt)
  {
    hide NatText, MetaTexts, ToString;
  }

  /** The same for the time. */
  lemma CreatedAtCovered(dump: Json -> string, xs: seq<Atom>, a: Atom, ys: seq<Atom>, t: int64)
    requires !Versioned(xs + [a] + ys)
    ensures HashInput(dump, xs + [a.(createdAt := t)] + ys) == HashInput(dump, xs + [a] + ys) <==> t == a.createdAt
  {
    hide HashInput, Versioned, Texts, ToString;
    var b, n := a.(createdAt := t), |xs| + 1 + |ys|;
    StillUnversioned(xs, a, b, ys);
    TextsWithCreatedAt(n, a, t);
    TextCovered(dump, xs, a, b, ys, |Texts(n, a)| - 1, ToString(t));
    if ToString(t) == ToString(a.createdAt) {
      ToStringInjective(t, a.createdAt);
    }
  }

  lemma {:induction false} MetaTextsAt(meta: seq<(string, string)>, j: nat, x: (string, string))
    requires j < |meta|
    ensures MetaTexts(meta[j := x]) == MetaTexts(meta)[2 * j := x.0][2 * j + 1 := x.1]
    ensures MetaTexts(meta)[2 * j] == meta[j].0 && MetaTexts(meta)[2 * j + 1] == meta[j].1
  {
    var t := |meta| - 1;
    if j < t {
      MetaTextsAt(meta[..t], j, x);
      assert meta[j := x][..t] == meta[..t][j := x];
    } else {
      assert meta[j := x][..t] == meta[..t];
    }
  }

  lemma TextsWithMeta(n: nat, a: Atom, j: nat, x: (string, string))
    requires j < |a.meta|
    ensures Texts(n, a.(meta := a.meta[j := x])) == Texts(n, a)[9 + 2 * j := x.0][10 + 2 * j := x.1]
    ensures Texts(n, a)[9 + 2 * j] == a.meta[j].0 && Texts(n, a)[10 + 2 * j] == a.meta[j].1
  {
    MetaTextsAt(a.meta, j, x);
    hide NatText, MetaTexts, ToString;
  }

  /** The same for a meta key and for a meta value. */
  lemma MetaCovered(dump: Json -> string, xs: seq<Atom>, a: Atom, ys: seq<Atom>, j: nat, s: string)
    requires !Versioned(xs + [a] + ys) && j < |a.meta|
    ensures HashInput(dump, xs + [a.(meta := a.meta[j := (s, a.meta[j].1)])] + ys) == HashInput(dump, xs + [a] + ys)
       <==> s == a.meta[j].0
    ensures HashInput(dump, xs + [a.(meta := a.meta[j := (a.meta[j].0, s)])] + ys) == HashInput(dump, xs + [a] + ys)
       <==> s == a.meta[j].1
  {
    hide HashInput, Versioned, Texts;
    var n := |xs| + 1 + |ys|;
    var k, v := a.(meta := a.meta[j := (s, a.meta[j].1)]), a.(meta := a.meta[j := (a.meta[j].0, s)]);
    StillUnversioned(xs, a, k, ys);
    StillUnversioned(xs, a, v, ys);
    TextsWithMeta(n, a, j, (s, a.meta[j].1));
    TextsWithMeta(n, a, j, (a.meta[j].0, s));
    assert Texts(n, k) == Texts(n, a)[9 + 2 * j := s] && Texts(n, v) == Texts(n, a)[10 + 2 * j := s];
    TextCovered(dump, xs, a, k, ys, 9 + 2 * j, s);
    TextCovered(dump, xs, a, v, ys, 10 + 2 * j, s);
  }

  // ----- what the glue hides

  /** Two texts that follow each other in an atom are hashed as one: only their glued text matters. */
  lemma NeighboursAreGlued(dump: Json -> string, xs: seq<Atom>, a: Atom, b: Atom, ys: seq<Atom>, k: nat)
    requires !Versioned(xs + [a] + ys) && !Versioned(xs + [b] + ys)
    requires var n := |xs| + 1 + |ys|;
             k + 1 < |Texts(n, a)| == |Texts(n, b)|
    requires var p, q := Texts(|xs| + 1 + |ys|, a), Texts(|xs| + 1 + |ys|, b);
             q == p[k := q[k]][k + 1 := q[k + 1]]
    ensures var p, q := Texts(|xs| + 1 + |ys|, a), Texts(|xs| + 1 + |ys|, b);
            HashInput(dump, xs + [b] + ys) == HashInput(dump, xs + [a] + ys)
            <==> q[k] + q[k + 1] == p[k] + p[k + 1]
  {
    hide HashInput, Versioned, Texts, Concat;
    var n := |xs| + 1 + |ys|;
    var p, q := Texts(n, a), Texts(n, b);
    TextAround(dump, n, xs, a, ys);
    TextAround(dump, n, xs, b, ys);
    OnlyTheMiddle(Concat(AllTexts(n, xs)), Concat(q), Concat(p), Concat(AllTexts(n, ys)));
    ConcatPair(p, k);
    ConcatPair(q, k);
    assert q[..k] == p[..k] && q[k + 2..] == p[k + 2..];
    OnlyTheMiddle(Concat(p[..k]), q[k] + q[k + 1], p[k] + p[k + 1], Concat(p[k + 2..]));
  }

  lemma ConcatPair(parts: seq<string>, k: nat)
    requires k + 1 < |parts|
    ensures Concat(parts) == Concat(parts[..k]) + (parts[k] + parts[k + 1]) + Concat(parts[k + 2..])
  {
    hide Concat;
    CutTwo(parts, k);
    ConcatThree(parts[..k], [parts[k], parts[k + 1]], parts[k + 2..]);
    ConcatTwo(parts[k], parts[k + 1]);
  }

  lemma CutTwo(parts: seq<string>, k: nat)
    requires k + 1 < |parts|
    ensures parts == parts[..k] + [parts[k], parts[k + 1]] + parts[k + 2..]
  {
  }

  /** The order of the fields: moving text from the end of one to the front of the next keeps the hashed text. */
  lemma TextMoves(dump: Json -> string, xs: seq<Atom>, a: Atom, ys: seq<Atom>, f: HashedField, g: HashedField,
                  s: string, moved: string, t: string)
    requires !Versioned(xs + [a] + ys) && PlaceOf(g) == PlaceOf(f) + 1
    ensures HashInput(dump, xs + [WithField(WithField(a, f, s + moved), g, t)] + ys)
         == HashInput(dump, xs + [WithField(WithField(a, f, s), g, moved + t)] + ys)
  {
    hide HashInput, Versioned, Texts, WithField, FieldOf;
    var n := |xs| + 1 + |ys|;
    var b, c := WithField(WithField(a, f, s + moved), g, t), WithField(WithField(a, f, s), g, moved + t);
    StillUnversioned(xs, a, b, ys);
    StillUnversioned(xs, a, c, ys);
    TextsWithField(n, a, f, s + moved);
    TextsWithField(n, WithField(a, f, s + moved), g, t);
    TextsWithField(n, a, f, s);
    TextsWithField(n, WithField(a, f, s), g, moved + t);
    var k := PlaceOf(f);
    assert Texts(n, b) == Texts(n, a)[k := s + moved][k + 1 := t];
    assert Texts(n, c) == Texts(n, a)[k := s][k + 1 := moved + t];
    assert Texts(n, b) == Texts(n, c)[k := Texts(n, b)[k]][k + 1 := Texts(n, b)[k + 1]];
    assert (s + moved) + t == s + (moved + t);
    NeighboursAreGlued(dump, xs, c, b, ys, k);
  }

  // ----- versioned molecules: the view

  const VIEW_KEYS: seq<string> :=
    ["batchId", "createdAt", "index", "isotope", "meta", "metaId", "metaType", "position", "token", "value", "version",
     "walletAddress"]

  /** What the first item of a view that has the key shows under it. */
  function ShownIn(items: seq<Json>, key: string): Option<Json> {
    if items == [] then None
    else if Find(items[0], key).Some? then Find(items[0], key)
    else ShownIn(items[1..], key)
  }

  function Shown(view: Json, key: string): Option<Json> {
    if view.JArr? then ShownIn(view.items, key) else None
  }

  lemma EntryFinds(k: string, v: Json, key: string)
    ensures Find(Entry(k, v), key) == if key == k then Some(v) else None
  {
    var fields := [(k, v)];
    assert fields[1..] == [] && Lookup(fields[1..], key) == None;
  }

  lemma {:induction false} ShownAt(items: seq<Json>, keys: seq<string>, values: seq<Json>, i: nat)
    requires i < |items| == |keys| == |values|
    requires forall j :: 0 <= j < |items| ==> items[j] == Entry(keys[j], values[j])
    requires forall j :: 0 <= j < i ==> keys[j] != keys[i]
    ensures ShownIn(items, keys[i]) == Some(values[i])
  {
    EntryFinds(keys[0], values[0], keys[i]);
    if i > 0 {
      ShownAt(items[1..], keys[1..], values[1..], i - 1);
    }
  }

  /** A meta item shows its key first and its value second. */
  lemma MetaItemShows(key: string, value: Json)
    ensures var item := MetaItem(key, value);
            && item.JArr? && |item.items| == 2
            && Find(item.items[0], "key") == Some(JStr(key)) && Find(item.items[1], "value") == Some(value)
            && Find(item.items[0], "value") == Find(item.items[1], "key") == None
  {
    EntryFinds("key", JStr(key), "key");
    EntryFinds("key", JStr(key), "value");
    EntryFinds("value", value, "key");
    EntryFinds("value", value, "value");
    hide Find, Entry;
  }

  /** The values of an atom's view, in the order of VIEW_KEYS. */
  function ViewValues(a: Atom): (values: seq<Json>)
    ensures |values| == 12
  {
    [ Optional(a, a.batchId, EmptyBatchId), JStr(ToString(a.createdAt)), JInt(a.index), Field(a.isotope),
      JArr(MergeMeta(a.meta, a.nullMeta, 0)), Optional(a, a.metaId, EmptyMetaId),
      Optional(a, a.metaType, EmptyMetaType), Field(a.position), Field(a.token), Optional(a, a.value, EmptyValue),
      if a.version.Some? then JStr(a.version.value) else JNull, Field(a.walletAddress) ]
  }

  lemma ViewKeysDistinct(i: nat, j: nat)
    requires i < j < 12
    ensures VIEW_KEYS[i] != VIEW_KEYS[j]
  {
  }

  lemma ViewItems(a: Atom)
    ensures AtomView(a).JArr? && |AtomView(a).items| == 12 == |VIEW_KEYS|
    ensures forall j :: 0 <= j < 12 ==> AtomView(a).items[j] == Entry(VIEW_KEYS[j], ViewValues(a)[j])
  {
    hide Optional, Field, ToString, MergeMeta, Entry;
    forall j: nat | j < 12
      ensures AtomView(a).items[j] == Entry(VIEW_KEYS[j], ViewValues(a)[j])
    {
      ViewItem(a, j);
    }
  }

  lemma ViewItem(a: Atom, j: nat)
    requires j < 12
    ensures AtomView(a).JArr? && |AtomView(a).items| == 12 == |VIEW_KEYS|
    ensures AtomView(a).items[j] == Entry(VIEW_KEYS[j], ViewValues(a)[j])
  {
    hide Optional, Field, ToString, MergeMeta, Entry;
  }

  lemma ShownValue(a: Atom, i: nat)
    requires i < 12
    ensures |VIEW_KEYS| == 12 && Shown(AtomView(a), VIEW_KEYS[i]) == Some(ViewValues(a)[i])
  {
    ViewItems(a);
    hide AtomView, ViewValues;
    forall j: nat | j < i
      ensures VIEW_KEYS[j] != VIEW_KEYS[i]
    {
      ViewKeysDistinct(j, i);
    }
    hide VIEW_KEYS;
    ShownAt(AtomView(a).items, VIEW_KEYS, ViewValues(a), i);
  }

  /** The text of a field that is null when empty. */
  function TextShown(j: Option<Json>): string {
    if j.Some? && j.value.JStr? then j.value.s else ""
  }

  /** Every field is shown under its own key. */
  lemma ViewShows(a: Atom)
    ensures TextShown(Shown(AtomView(a), "position")) == a.position
    ensures TextShown(Shown(AtomView(a), "walletAddress")) == a.walletAddress
    ensures TextShown(Shown(AtomView(a), "isotope")) == a.isotope
    ensures TextShown(Shown(AtomView(a), "token")) == a.token
    ensures TextShown(Shown(AtomView(a), "value")) == a.value
    ensures TextShown(Shown(AtomView(a), "batchId")) == a.batchId
    ensures TextShown(Shown(AtomView(a), "metaType")) == a.metaType
    ensures TextShown(Shown(AtomView(a), "metaId")) == a.metaId
    ensures TextShown(Shown(AtomView(a), "createdAt")) == ToString(a.createdAt)
    ensures Shown(AtomView(a), "index") == Some(JInt(a.index))
    ensures Shown(AtomView(a), "meta") == Some(JArr(MergeMeta(a.meta, a.nullMeta, 0)))
    ensures Shown(AtomView(a), "version") == Some(if a.version.Some? then JStr(a.version.value) else JNull)
  {
    hide AtomView, Shown, ToString, MergeMeta;
    ShownValue(a, 0);
    ShownValue(a, 1);
    ShownValue(a, 2);
    ShownValue(a, 3);
    ShownValue(a, 4);
    ShownValue(a, 5);
    ShownValue(a, 6);
    ShownValue(a, 7);
    ShownValue(a, 8);
    ShownValue(a, 9);
    ShownValue(a, 10);
    ShownValue(a, 11);
  }

  /** An empty optional field is shown as "" for both or as null for both. */
  predicate SameEmpty(a: Atom, b: Atom, s: string, f: EmptyField) {
    s == "" ==> (f in a.parsedEmpty <==> f in b.parsedEmpty)
  }

  /** The two atoms agree in all that a view shows. */
  predicate SameShown(a: Atom, b: Atom) {
    && a.position == b.position && a.walletAddress == b.walletAddress && a.isotope == b.isotope && a.token == b.token
    && a.createdAt == b.createdAt && a.index == b.index && a.version == b.version
    && a.value == b.value && SameEmpty(a, b, a.value, EmptyValue)
    && a.batchId == b.batchId && SameEmpty(a, b, a.batchId, EmptyBatchId)
    && a.metaType == b.metaType && SameEmpty(a, b, a.metaType, EmptyMetaType)
    && a.metaId == b.metaId && SameEmpty(a, b, a.metaId, EmptyMetaId)
    && MergeMeta(a.meta, a.nullMeta, 0) == MergeMeta(b.meta, b.nullMeta, 0)
  }

  lemma OptionalExact(a: Atom, s: string, b: Atom, t: string, f: EmptyField)
    ensures Optional(a, s, f) == Optional(b, t, f) <==> s == t && SameEmpty(a, b, s, f)
  {
  }

  lemma ValuesExact(a: Atom, b: Atom)
    ensures ViewValues(a) == ViewValues(b) <==> SameShown(a, b)
  {
    OptionalExact(a, a.value, b, b.value, EmptyValue);
    OptionalExact(a, a.batchId, b, b.batchId, EmptyBatchId);
    OptionalExact(a, a.metaType, b, b.metaType, EmptyMetaType);
    OptionalExact(a, a.metaId, b, b.metaId, EmptyMetaId);
    if ToString(a.createdAt) == ToString(b.createdAt) {
      ToStringInjective(a.createdAt, b.createdAt);
    }
    hide Optional, SameEmpty, ToString, MergeMeta;
    var v, w := ViewValues(a), ViewValues(b);
    if v == w {
      assert v[0] == w[0] && v[1] == w[1] && v[2] == w[2] && v[3] == w[3] && v[4] == w[4] && v[5] == w[5];
      assert v[6] == w[6] && v[7] == w[7] && v[8] == w[8] && v[9] == w[9] && v[10] == w[10] && v[11] == w[11];
    }
  }

  /** Two atoms have the same view if and only if they agree in all that it shows. */
  lemma ViewExact(a: Atom, b: Atom)
    ensures AtomView(a) == AtomView(b) <==> SameShown(a, b)
  {
    ValuesExact(a, b);
    ViewItems(a);
    ViewItems(b);
    hide AtomView, ViewValues, SameShown, VIEW_KEYS;
    var v, w := AtomView(a), AtomView(b);
    if ViewValues(a) == ViewValues(b) {
      assert v.items == w.items;
    }
    if v == w {
      forall j: nat | j < 12
        ensures ViewValues(a)[j] == ViewValues(b)[j]
      {
        EntryParts(VIEW_KEYS[j], ViewValues(a)[j], ViewValues(b)[j]);
      }
      assert ViewValues(a) == ViewValues(b);
    }
  }

  lemma MapThree<S, T>(f: S -> T, xs: seq<S>, a: S, ys: seq<S>)
    ensures Map(f, xs + [a] + ys) == Map(f, xs) + [f(a)] + Map(f, ys)
  {
  }

  lemma BucketThree<T>(key: T -> int, xs: seq<T>, a: T, ys: seq<T>, k: int)
    ensures Bucket(key, xs + [a] + ys, k)
         == Bucket(key, xs, k) + (if key(a) == k then [a] else []) + Bucket(key, ys, k)
  {
    hide Bucket;
    BucketConcat(key, xs + [a], ys, k);
    BucketSnoc(key, xs, a, k);
  }

  /** Replacing one atom keeps a molecule's view if and only if it keeps the atom's. */
  lemma OneViewChanged(xs: seq<Atom>, a: Atom, b: Atom, ys: seq<Atom>)
    ensures Views(xs + [a] + ys) == Views(xs + [b] + ys) <==> AtomView(a) == AtomView(b)
  {
    ViewOrderExact(xs + [a] + ys, xs + [b] + ys);
    hide Views, AtomView, ViewIndex, Bucket;
    MapThree(AtomView, xs, a, ys);
    MapThree(AtomView, xs, b, ys);
    var before, after, v, w := Map(AtomView, xs), Map(AtomView, ys), AtomView(a), AtomView(b);
    hide Map;
    var k := ViewIndex(v);
    BucketThree(ViewIndex, before, v, after, k);
    BucketThree(ViewIndex, before, w, after, k);
    if SameBuckets(ViewIndex, before + [v] + after, before + [w] + after) {
      var l, r := Bucket(ViewIndex, before, k), Bucket(ViewIndex, after, k);
      assert l + [v] + r == l + (if ViewIndex(w) == k then [w] else []) + r;
      assert |l + [v] + r| == |l| + 1 + |r|;
      assert (l + [v] + r)[|l|] == v;
    }
  }

  /** With versions, replacing one atom by another versioned one keeps the hashed text if and only if the two agree in
      all that a view shows, provided the two molecules' views are not printed as one text. */
  lemma VersionedCovered(dump: Json -> string, xs: seq<Atom>, a: Atom, b: Atom, ys: seq<Atom>)
    requires Versioned(xs + [a] + ys) && b.version.Some?
    requires PrintsApart(dump, JArr(Views(xs + [b] + ys)), JArr(Views(xs + [a] + ys)))
    ensures HashInput(dump, xs + [b] + ys) == HashInput(dump, xs + [a] + ys) <==> SameShown(b, a)
  {
    hide Views, AtomView, SameShown, Versioned;
    StillVersioned(xs, a, b, ys);
    OneViewChanged(xs, b, a, ys);
    ViewExact(b, a);
  }

  lemma StillVersioned(xs: seq<Atom>, a: Atom, b: Atom, ys: seq<Atom>)
    requires Versioned(xs + [a] + ys) && b.version.Some?
    ensures Versioned(xs + [b] + ys)
  {
    var l, r := xs + [b] + ys, xs + [a] + ys;
    forall i | 0 <= i < |l|
      ensures l[i].version.Some?
    {
      assert i != |xs| ==> l[i] == r[i];
    }
  }

  /** The hash covers the whole text: two molecules have the same hash whatever SHAKE256 answers if and only if their
      texts are the same. */
  lemma HashesAgree(dump: Json -> string, xs: seq<Atom>, ys: seq<Atom>)
    ensures (forall xof: Xof :: HashBase17(xof, dump, xs) == HashBase17(xof, dump, ys))
       <==> HashInput(dump, xs) == HashInput(dump, ys)
  {
    hide HashInput, HashBase17, ShakeHex;
    if HashInput(dump, xs) != HashInput(dump, ys) {
      OnceTellsApart(HashInput(dump, xs), HashInput(dump, ys), 256);
      var xof: Xof :| ShakeHex(xof, HashInput(dump, xs), 256) != ShakeHex(xof, HashInput(dump, ys), 256);
      HashSeparatesDigests(xof, dump, xs, ys);
      DigestIs(xof, dump, xs);
      DigestIs(xof, dump, ys);
    }
    forall xof: Xof | HashInput(dump, xs) == HashInput(dump, ys)
      ensures HashBase17(xof, dump, xs) == HashBase17(xof, dump, ys)
    {
      HashSeparatesDigests(xof, dump, xs, ys);
      DigestIs(xof, dump, xs);
      DigestIs(xof, dump, ys);
    }
  }

  lemma DigestIs(xof: Xof, dump: Json -> string, atoms: seq<Atom>)
    ensures HashHex(xof, dump, atoms) == ShakeHex(xof, HashInput(dump, atoms), 256)
  {
    hide HashInput;
  }
}
