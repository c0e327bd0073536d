/** Atoms, their parsed meta lists, and the meta part of the Version4 view. */
module Atom {
  import opened Common
  import opened Decimal
  import opened Json

  datatype EmptyField = EmptyValue | EmptyBatchId | EmptyMetaType | EmptyMetaId

  /** nullMeta and parsedEmpty record what parsing saw; see the fields of class Atom. */
  datatype Atom = Atom(
    position: string,
    walletAddress: string,
    isotope: string,
    token: string,
    value: string,
    batchId: string,
    metaType: string,
    metaId: string,
    meta: seq<(string, string)>,
    otsFragment: string,
    createdAt: int64,
    index: int32,
    version: Option<string>,
    nullMeta: seq<(nat, string)>,
    parsedEmpty: set<EmptyField>)

  /** The constructor: no version and nothing recorded by parsing. */
  function NewAtom(position: string, walletAddress: string, isotope: string, token: string, value: string,
                   batchId: string, metaType: string, metaId: string, meta: seq<(string, string)>, now: int64,
                   index: int32): Atom {
    Atom(position, walletAddress, isotope, token, value, batchId, metaType, metaId, meta, "", now, index, None, [], {})
  }

  // ----- parsed meta lists

  /** A meta entry with both key and value; the value None is JSON null, any other value its text. */
  datatype MetaEntry = MetaEntry(key: string, value: Option<string>)

  function MetaText(dump: Json -> string, value: Json): string {
    if value.JStr? then value.s else dump(value)
  }

  /** The entries of a parsed meta list; elements without a key or a value are skipped. */
  function MetaEntries(dump: Json -> string, items: seq<Json>): Result<seq<MetaEntry>> {
    if items == [] then Ok([])
    else
      var before :- MetaEntries(dump, items[..|items| - 1]);
      var item := items[|items| - 1];
      var key, value := Find(item, "key"), Find(item, "value");
      if key.None? || value.None? then Ok(before)
      else
        var k :- GetString(key.value);
        Ok(before + [MetaEntry(k, if value.value.JNull? then None else Some(MetaText(dump, value.value)))])
  }

  /** What an entry adds to meta. */
  function Kept(e: MetaEntry): seq<(string, string)> {
    if e.value.Some? then [(e.key, e.value.value)] else []
  }

  /** The entries with a value. */
  function Present(entries: seq<MetaEntry>): seq<(string, string)> {
    if entries == [] then []
    else
      Present(entries[..|entries| - 1]) + Kept(entries[|entries| - 1])
  }

  /** The null entries with their positions. */
  function Nulls(entries: seq<MetaEntry>): seq<(nat, string)> {
    if entries == [] then []
    else
      var e := entries[|entries| - 1];
      Nulls(entries[..|entries| - 1]) + if e.value.None? then [(|entries| - 1, e.key)] else []
  }

  lemma {:induction false} EntryCount(entries: seq<MetaEntry>)
    ensures |Present(entries)| + |Nulls(entries)| == |entries|
  {
    if entries != [] {
      EntryCount(entries[..|entries| - 1]);
    }
  }

  lemma EntriesStep(dump: Json -> string, items: seq<Json>, i: nat, entries: seq<MetaEntry>)
    requires i < |items| && MetaEntries(dump, items[..i]) == Ok(entries)
    ensures MetaEntries(dump, items[..i + 1])
         == (var key, value := Find(items[i], "key"), Find(items[i], "value");
             if key.None? || value.None? then Ok(entries)
             else if !key.value.JStr? then Err(JsonType)
             else
               var text := if value.value.JNull? then None else Some(MetaText(dump, value.value));
               Ok(entries + [MetaEntry(key.value.s, text)]))
  {
    assert items[..i + 1][..i] == items[..i];
  }

  lemma SplitSnoc(entries: seq<MetaEntry>, e: MetaEntry)
    ensures Present(entries + [e]) == Present(entries) + Kept(e)
    ensures Nulls(entries + [e])
         == if e.value.None? then Nulls(entries) + [(|entries|, e.key)] else Nulls(entries)
  {
    assert (entries + [e])[..|entries|] == entries;
  }

  lemma NothingSplit(dump: Json -> string)
    ensures MetaEntries(dump, []) == Ok([]) && Present([]) == [] && Nulls([]) == []
  {
  }

  /** The loop of Atom::jsonToObject over a meta list; a position is the number of entries kept before. */
  method SplitMeta(dump: Json -> string, items: seq<Json>)
    returns (r: Result<(seq<(string, string)>, seq<(nat, string)>)>)
    ensures r == match MetaEntries(dump, items)
                 case Ok(entries) => Ok((Present(entries), Nulls(entries)))
                 case Err(e) => Err(e)
  {
    hide MetaEntries, Present, Nulls, Find, MetaText;
    var metaValues: seq<(string, string)> := [];
    var nullMeta: seq<(nat, string)> := [];
    ghost var entries: seq<MetaEntry> := [];
    NothingSplit(dump);
    assert items[..0] == [];
    for i := 0 to |items|
      invariant MetaEntries(dump, items[..i]) == Ok(entries)
      invariant metaValues == Present(entries) && nullMeta == Nulls(entries)
    {
      EntriesStep(dump, items, i, entries);
      var key, value := Find(items[i], "key"), Find(items[i], "value");
      if key.Some? && value.Some? {
        if !key.value.JStr? {
          PrefixError(dump, items, i + 1);
          return Err(JsonType);
        }
        ghost var e := MetaEntry(key.value.s, if value.value.JNull? then None else Some(MetaText(dump, value.value)));
        SplitSnoc(entries, e);
        EntryCount(entries);
        if value.value.JNull? {
          nullMeta := nullMeta + [(|metaValues| + |nullMeta|, key.value.s)];
        } else {
          metaValues := metaValues + [(key.value.s, MetaText(dump, value.value))];
        }
        entries := entries + [e];
      }
    }
    assert items[..|items|] == items;
    return Ok((metaValues, nullMeta));
  }

  lemma {:induction false} PrefixError(dump: Json -> string, items: seq<Json>, n: nat)
    requires n <= |items| && MetaEntries(dump, items[..n]).Err?
    ensures MetaEntries(dump, items) == MetaEntries(dump, items[..n])
    decreases |items|
  {
    if n < |items| {
      var t := |items| - 1;
      assert items[..t][..n] == items[..n];
      PrefixError(dump, items[..t], n);
    } else {
      assert items[..n] == items;
    }
  }

  // ----- the Version4 view

  function Field(s: string): Json {
    if s == "" then JNull else JStr(s)
  }

  function Entry(key: string, value: Json): Json {
    JObj([(key, value)])
  }

  function MetaItem(key: string, value: Json): Json {
    JArr([Entry("key", JStr(key)), Entry("value", value)])
  }

  function NullItems(nulls: seq<(nat, string)>): (items: seq<Json>)
    ensures |items| == |nulls|
  {
    seq(|nulls|, i requires 0 <= i < |nulls| => MetaItem(nulls[i].1, JNull))
  }

  /** Null items go back before the meta item at whose position they stood; size items are already written. */
  function MergeMeta(meta: seq<(string, string)>, nulls: seq<(nat, string)>, size: nat): seq<Json>
    decreases |meta| + |nulls|
  {
    if meta == [] then NullItems(nulls)
    else if nulls != [] && nulls[0].0 <= size then [MetaItem(nulls[0].1, JNull)] + MergeMeta(meta, nulls[1..], size + 1)
    else [MetaItem(meta[0].0, JStr(meta[0].1))] + MergeMeta(meta[1..], nulls, size + 1)
  }

  method MergeMetaItems(meta: seq<(string, string)>, nullMeta: seq<(nat, string)>) returns (items: seq<Json>)
    ensures items == MergeMeta(meta, nullMeta, 0)
  {
    hide MergeMeta, MetaItem;
    items := [];
    var nullIt := 0;
    ghost var all := MergeMeta(meta, nullMeta, 0);
    assert meta[0..] == meta && nullMeta[0..] == nullMeta && [] + all == all;
    for i := 0 to |meta|
      invariant 0 <= nullIt <= |nullMeta|
      invariant Merging(items, meta[i..], nullMeta[nullIt..], all)
    {
      while nullIt < |nullMeta| && nullMeta[nullIt].0 <= |items|
        invariant 0 <= nullIt <= |nullMeta|
        invariant Merging(items, meta[i..], nullMeta[nullIt..], all)
      {
        assert nullMeta[nullIt..][1..] == nullMeta[nullIt + 1..];
        MergeNullStep(items, meta[i..], nullMeta[nullIt..], all);
        items := items + [MetaItem(nullMeta[nullIt].1, JNull)];
        nullIt := nullIt + 1;
      }
      assert meta[i..][1..] == meta[i + 1..];
      MergeMetaStep(items, meta[i..], nullMeta[nullIt..], all);
      items := items + [MetaItem(meta[i].0, JStr(meta[i].1))];
    }
    ghost var before := items;
    ghost var rest := NullItems(nullMeta[nullIt..]);
    MergeRest(items, nullMeta[nullIt..], all);
    ghost var start := nullIt;
    while nullIt < |nullMeta|
      invariant start <= nullIt <= |nullMeta|
      invariant items == before + rest[..nullIt - start]
    {
      items := items + [MetaItem(nullMeta[nullIt].1, JNull)];
      nullIt := nullIt + 1;
    }
    assert rest[..nullIt - start] == rest;
  }

  /** The items written so far, and what is still to come, make up the whole. */
  ghost predicate Merging(items: seq<Json>, meta: seq<(string, string)>, nulls: seq<(nat, string)>, all: seq<Json>) {
    items + MergeMeta(meta, nulls, |items|) == all
  }

  lemma MergeNullStep(items: seq<Json>, meta: seq<(string, string)>, nulls: seq<(nat, string)>, all: seq<Json>)
    requires meta != [] && nulls != [] && nulls[0].0 <= |items| && Merging(items, meta, nulls, all)
    ensures Merging(items + [MetaItem(nulls[0].1, JNull)], meta, nulls[1..], all)
  {
    hide MetaItem;
    MergeStep(items, MetaItem(nulls[0].1, JNull), MergeMeta(meta, nulls[1..], |items| + 1));
  }

  lemma MergeMetaStep(items: seq<Json>, meta: seq<(string, string)>, nulls: seq<(nat, string)>, all: seq<Json>)
    requires meta != [] && !(nulls != [] && nulls[0].0 <= |items|) && Merging(items, meta, nulls, all)
    ensures Merging(items + [MetaItem(meta[0].0, JStr(meta[0].1))], meta[1..], nulls, all)
  {
    hide MetaItem;
    MergeStep(items, MetaItem(meta[0].0, JStr(meta[0].1)), MergeMeta(meta[1..], nulls, |items| + 1));
  }

  lemma MergeRest(items: seq<Json>, nulls: seq<(nat, string)>, all: seq<Json>)
    requires Merging(items, [], nulls, all)
    ensures items + NullItems(nulls) == all
  {
  }

  lemma MergeStep(items: seq<Json>, item: Json, rest: seq<Json>)
    ensures items + ([item] + rest) == (items + [item]) + rest
  {
  }

  function EntryItem(e: MetaEntry): Json {
    MetaItem(e.key, if e.value.Some? then JStr(e.value.value) else JNull)
  }

  function EntryItems(entries: seq<MetaEntry>): (items: seq<Json>)
    ensures |items| == |entries|
  {
    seq(|entries|, i requires 0 <= i < |entries| => EntryItem(entries[i]))
  }

  function Shift(nulls: seq<(nat, string)>, off: nat): (r: seq<(nat, string)>)
    ensures |r| == |nulls|
  {
    seq(|nulls|, i requires 0 <= i < |nulls| => (nulls[i].0 + off, nulls[i].1))
  }

  lemma ConcatAssoc<T>(a: seq<T>, b: seq<T>, c: seq<T>)
    ensures (a + b) + c == a + (b + c)
  {
  }

  /** Splitting one entry and a non-empty rest off the last entry. */
  lemma LastOf<T>(e: T, rest: seq<T>)
    requires rest != []
    ensures [e] + rest == ([e] + rest[..|rest| - 1]) + [rest[|rest| - 1]]
    ensures rest == rest[..|rest| - 1] + [rest[|rest| - 1]]
  {
  }

  lemma {:induction false} PresentCons(e: MetaEntry, rest: seq<MetaEntry>)
    ensures Present([e] + rest) == Kept(e) + Present(rest)
  {
    hide Present, Kept;
    if rest == [] {
      SplitSnoc([], e);
      NothingSplit(_ => "");
      assert [e] + rest == [] + [e];
    } else {
      var t := |rest| - 1;
      PresentCons(e, rest[..t]);
      SplitSnoc([e] + rest[..t], rest[t]);
      SplitSnoc(rest[..t], rest[t]);
      LastOf(e, rest);
      ConcatAssoc(Kept(e), Present(rest[..t]), Kept(rest[t]));
    }
  }

  lemma ShiftSnoc(nulls: seq<(nat, string)>, x: (nat, string), off: nat)
    ensures Shift(nulls + [x], off) == Shift(nulls, off) + [(x.0 + off, x.1)]
  {
  }

  /** The nulls of a list that one entry is put in front of. */
  function NullsAround(e: MetaEntry, rest: seq<MetaEntry>): seq<(nat, string)> {
    if e.value.None? then [(0, e.key)] + Shift(Nulls(rest), 1) else Shift(Nulls(rest), 1)
  }

  lemma NullsAroundSnoc(e: MetaEntry, t: seq<MetaEntry>, x: MetaEntry)
    ensures NullsAround(e, t + [x]) ==
         if x.value.None? then NullsAround(e, t) + [(|t| + 1, x.key)] else NullsAround(e, t)
  {
    hide Nulls, Shift;
    SplitSnoc(t, x);
    ShiftSnoc(Nulls(t), (|t|, x.key), 1);
    ConcatAssoc([(0, e.key)], Shift(Nulls(t), 1), [(|t| + 1, x.key)]);
  }

  lemma {:induction false} NullsCons(e: MetaEntry, rest: seq<MetaEntry>)
    ensures Nulls([e] + rest) == NullsAround(e, rest)
  {
    if rest == [] {
      hide Nulls;
      SplitSnoc([], e);
      NothingSplit(_ => "");
      assert [e] + rest == [] + [e];
    } else {
      hide *;
      var t, x := rest[..|rest| - 1], rest[|rest| - 1];
      NullsCons(e, t);
      LastOf(e, rest);
      SplitSnoc([e] + t, x);
      NullsAroundSnoc(e, t, x);
    }
  }

  lemma ShiftTwice(nulls: seq<(nat, string)>, a: nat, b: nat)
    ensures Shift(Shift(nulls, a), b) == Shift(nulls, a + b)
  {
  }

  lemma MergeNullHead(meta: seq<(string, string)>, nulls: seq<(nat, string)>, size: nat)
    requires nulls != [] && nulls[0].0 == size
    ensures MergeMeta(meta, nulls, size) == [MetaItem(nulls[0].1, JNull)] + MergeMeta(meta, nulls[1..], size + 1)
  {
    if meta == [] {
      hide MetaItem;
      assert NullItems(nulls) == [MetaItem(nulls[0].1, JNull)] + NullItems(nulls[1..]);
    }
  }

  lemma MergeMetaHead(head: (string, string), rest: seq<(string, string)>, nulls: seq<(nat, string)>, size: nat)
    requires nulls == [] || nulls[0].0 > size
    ensures MergeMeta([head] + rest, nulls, size) == [MetaItem(head.0, JStr(head.1))] + MergeMeta(rest, nulls, size + 1)
  {
    assert ([head] + rest)[1..] == rest;
  }

  lemma ItemsCons(e: MetaEntry, rest: seq<MetaEntry>)
    ensures EntryItems([e] + rest) == [EntryItem(e)] + EntryItems(rest)
  {
    hide EntryItem;
  }

  lemma ShiftCons(x: (nat, string), nulls: seq<(nat, string)>, off: nat)
    ensures Shift([x] + nulls, off) == [(x.0 + off, x.1)] + Shift(nulls, off)
  {
  }

  lemma {:induction false} MergeSplitFrom(entries: seq<MetaEntry>, size: nat)
    ensures MergeMeta(Present(entries), Shift(Nulls(entries), size), size) == EntryItems(entries)
  {
    if entries == [] {
      assert EntryItems(entries) == [];
    } else {
      hide MergeMeta, Present, Nulls, MetaItem, EntryItems;
      var e, rest := entries[0], entries[1..];
      var nulls := Shift(Nulls(rest), size + 1);
      assert entries == [e] + rest;
      PresentCons(e, rest);
      NullsCons(e, rest);
      ItemsCons(e, rest);
      MergeSplitFrom(rest, size + 1);
      ShiftTwice(Nulls(rest), 1, size);
      if e.value.None? {
        ShiftCons((0, e.key), Shift(Nulls(rest), 1), size);
        MergeNullFirst(e, Present(rest), nulls, size);
      } else {
        ShiftedBehind(Nulls(rest), size + 1);
        hide Shift;
        MergeMetaHead((e.key, e.value.value), Present(rest), nulls, size);
      }
    }
  }

  lemma ShiftedBehind(nulls: seq<(nat, string)>, off: nat)
    ensures Shift(nulls, off) == [] || Shift(nulls, off)[0].0 >= off
  {
  }

  lemma MergeNullFirst(e: MetaEntry, meta: seq<(string, string)>, nulls: seq<(nat, string)>, size: nat)
    requires e.value.None?
    ensures MergeMeta([] + meta, [(size, e.key)] + nulls, size) == [EntryItem(e)] + MergeMeta(meta, nulls, size + 1)
  {
    hide MergeMeta, MetaItem;
    assert [] + meta == meta;
    assert ([(size, e.key)] + nulls)[1..] == nulls;
    MergeNullHead(meta, [(size, e.key)] + nulls, size);
  }

  /** Splitting a meta list into meta and positioned nullMeta and merging it again in the view reproduces every entry
      in its original place. */
  lemma NullMetaLossless(entries: seq<MetaEntry>)
    ensures MergeMeta(Present(entries), Nulls(entries), 0) == EntryItems(entries)
  {
    MergeSplitFrom(entries, 0);
    assert Shift(Nulls(entries), 0) == Nulls(entries);
  }
}
