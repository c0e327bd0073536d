/** Wallets as the builders and the unit split use them. */
module Wallet {
  import opened Common
  import opened Numerals

  /** A stackable unit; metas are kept in key order. */
  datatype TokenUnit = TokenUnit(id: string, name: string, metas: seq<(string, string)>)

  /** The fields of a wallet that end up in atoms. */
  datatype WalletView = WalletView(
    position: string,
    token: string,
    address: string,
    balance: string,
    batchId: string,
    bundle: string,
    tokenUnits: seq<TokenUnit>,
    otsVersion: int)

  /** The units whose id is listed, in their order. */
  function Listed(units: seq<TokenUnit>, ids: seq<string>): seq<TokenUnit> {
    if units == [] then []
    else
      var u := units[|units| - 1];
      Listed(units[..|units| - 1], ids) + if u.id in ids then [u] else []
  }

  /** The other units, in their order. */
  function Unlisted(units: seq<TokenUnit>, ids: seq<string>): seq<TokenUnit> {
    if units == [] then []
    else
      var u := units[|units| - 1];
      Unlisted(units[..|units| - 1], ids) + if u.id in ids then [] else [u]
  }

  /** All listed ids. */
  function Union(lists: seq<seq<string>>): seq<string> {
    if lists == [] then [] else Union(lists[..|lists| - 1]) + lists[|lists| - 1]
  }

  class Wallet {
    var position: string
    var token: string
    var address: string
    var balance: string
    var batchId: string
    var bundle: string
    var tokenUnits: seq<TokenUnit>
    var otsVersion: int

    constructor (view: WalletView)
      ensures View() == view
    {
      position, token, address, balance := view.position, view.token, view.address, view.balance;
      batchId, bundle, tokenUnits, otsVersion := view.batchId, view.bundle, view.tokenUnits, view.otsVersion;
    }

    function View(): WalletView
      reads this
    {
      WalletView(position, token, address, balance, batchId, bundle, tokenUnits, otsVersion)
    }

    /** Whether the id occurs in the list, by linear search. */
    static method IdInList(id: string, list: seq<string>) returns (found: bool)
      ensures found == (id in list)
    {
      for i := 0 to |list|
        invariant id !in list[..i]
      {
        if list[i] == id {
          return true;
        }
      }
      return false;
    }

    /** This wallet and the recipient get the sent units, the remainder the kept ones. The three may be the same object:
        the remainder is written last. */
    method SplitUnits(units: seq<string>, remainder: Wallet, recipient: Wallet?)
      modifies this`tokenUnits, remainder`tokenUnits, (if recipient == null then {} else {recipient})`tokenUnits
      ensures units == [] ==> tokenUnits == old(tokenUnits) && remainder.tokenUnits == old(remainder.tokenUnits)
      ensures units == [] && recipient != null ==> recipient.tokenUnits == old(recipient.tokenUnits)
      ensures units != [] ==> remainder.tokenUnits == Unlisted(old(tokenUnits), units)
      ensures units != [] && this != remainder ==> tokenUnits == Listed(old(tokenUnits), units)
      ensures units != [] && recipient != null && recipient != remainder ==>
           recipient.tokenUnits == Listed(old(tokenUnits), units)
      ensures units != [] && recipient != null && recipient != remainder ==>
           multiset(recipient.tokenUnits) + multiset(remainder.tokenUnits) == multiset(old(tokenUnits))
    {
      if units == [] {
        return;
      }
      var sent: seq<TokenUnit> := [];
      var kept: seq<TokenUnit> := [];
      for i := 0 to |tokenUnits|
        invariant tokenUnits == old(tokenUnits)
        invariant sent == Listed(tokenUnits[..i], units) && kept == Unlisted(tokenUnits[..i], units)
      {
        assert tokenUnits[..i + 1][..i] == tokenUnits[..i];
        var inUnits := IdInList(tokenUnits[i].id, units);
        if inUnits {
          sent := sent + [tokenUnits[i]];
        } else {
          kept := kept + [tokenUnits[i]];
        }
      }
      assert tokenUnits[..|tokenUnits|] == tokenUnits;
      assert multiset(sent) + multiset(kept) == multiset(old(tokenUnits)) by {
        SplitConserves(tokenUnits, units);
      }
      tokenUnits := sent;
      if recipient != null {
        recipient.tokenUnits := sent;
      }
      remainder.tokenUnits := kept;
    }

    /** The units of this wallet whose id is listed. */
    method Subset(ids: seq<string>) returns (subset: seq<TokenUnit>)
      ensures subset == Listed(tokenUnits, ids)
    {
      subset := [];
      for j := 0 to |tokenUnits|
        invariant subset == Listed(tokenUnits[..j], ids)
      {
        assert tokenUnits[..j + 1][..j] == tokenUnits[..j];
        var found := IdInList(tokenUnits[j].id, ids);
        if found {
          subset := subset + [tokenUnits[j]];
        }
      }
      assert tokenUnits[..|tokenUnits|] == tokenUnits;
    }

    /** Whether the id occurs in any list. */
    static method IdInAny(id: string, lists: seq<seq<string>>) returns (found: bool)
      ensures found == (id in Union(lists))
    {
      for i := 0 to |lists|
        invariant id !in Union(lists[..i])
      {
        assert lists[..i + 1][..i] == lists[..i];
        var here := IdInList(id, lists[i]);
        if here {
          UnionMember(lists, i, id);
          return true;
        }
      }
      assert lists[..|lists|] == lists;
      return false;
    }

    /** The units that some list names, and the others. */
    method SplitByLists(lists: seq<seq<string>>) returns (sentUnion: seq<TokenUnit>, kept: seq<TokenUnit>)
      ensures sentUnion == Listed(tokenUnits, Union(lists)) && kept == Unlisted(tokenUnits, Union(lists))
    {
      sentUnion, kept := [], [];
      for j := 0 to |tokenUnits|
        invariant sentUnion == Listed(tokenUnits[..j], Union(lists)) && kept == Unlisted(tokenUnits[..j], Union(lists))
      {
        assert tokenUnits[..j + 1][..j] == tokenUnits[..j];
        var sent := IdInAny(tokenUnits[j].id, lists);
        if sent {
          sentUnion := sentUnion + [tokenUnits[j]];
        } else {
          kept := kept + [tokenUnits[j]];
        }
      }
      assert tokenUnits[..|tokenUnits|] == tokenUnits;
    }

    /** Whether any unit is to be sent. */
    static method AnySent(lists: seq<seq<string>>) returns (anySent: bool)
      ensures anySent == (Union(lists) != [])
    {
      anySent := false;
      for i := 0 to |lists|
        invariant anySent == (Union(lists[..i]) != [])
      {
        assert lists[..i + 1][..i] == lists[..i];
        anySent := anySent || lists[i] != [];
      }
      assert lists[..|lists|] == lists;
    }

    /** Recipient i gets the units of list i, this wallet all sent units and the remainder the others. The recipients
        are the elements of a vector, so distinct objects; this wallet may be one of them. Then the recipients behind
        it, and the final division, see only its own share: the other units are gone. This wallet is written last, and a
        recipient that is also the remainder ends up with the kept units. */
    method SplitUnitsMulti(lists: seq<seq<string>>, recipients: seq<Wallet>, remainder: Wallet)
      requires forall i, j :: 0 <= i < j < |recipients| ==> recipients[i] != recipients[j]
      modifies this`tokenUnits, remainder`tokenUnits, (set r | r in recipients)`tokenUnits
      ensures Union(lists) == [] ==> tokenUnits == old(tokenUnits) && remainder.tokenUnits == old(remainder.tokenUnits)
      ensures Union(lists) == [] ==> forall r :: r in recipients ==> r.tokenUnits == old(r.tokenUnits)
      ensures Union(lists) != [] ==>
           tokenUnits == Listed(UnitsBefore(|recipients|, lists, recipients, old(tokenUnits)), Union(lists))
      ensures Union(lists) != [] && remainder != this ==>
        remainder.tokenUnits == Unlisted(UnitsBefore(|recipients|, lists, recipients, old(tokenUnits)), Union(lists))
      ensures Union(lists) != [] ==>
        forall i :: 0 <= i < |recipients| && recipients[i] != remainder && recipients[i] != this ==>
          recipients[i].tokenUnits == Listed(UnitsBefore(i, lists, recipients, old(tokenUnits)), IdsOf(lists, i))
      ensures Union(lists) != [] && this !in recipients && remainder !in recipients && remainder != this ==>
        (EachInOneList(old(tokenUnits), lists, |recipients|) <==>
          Pool(UnitsOf(recipients)) + multiset(remainder.tokenUnits) == multiset(old(tokenUnits)))
    {
      hide *;
      var anySent := AnySent(lists);
      if !anySent {
        return;
      }
      NoneServed(lists, recipients, tokenUnits);
      for i := 0 to |recipients|
        invariant tokenUnits == UnitsBefore(i, lists, recipients, old(tokenUnits))
        invariant forall j :: 0 <= j < i && recipients[j] != this ==>
          recipients[j].tokenUnits == Listed(UnitsBefore(j, lists, recipients, old(tokenUnits)), IdsOf(lists, j))
      {
        ServedNext(i, lists, recipients, old(tokenUnits));
        var subset := Subset(IdsOf(lists, i));
        recipients[i].tokenUnits := subset;
      }
      var sentUnion, kept := SplitByLists(lists);
      remainder.tokenUnits := kept;
      tokenUnits := sentUnion;
      if this !in recipients && remainder !in recipients && remainder != this {
        UnitsAre(recipients);
        SplitConserved(lists, recipients, old(tokenUnits), UnitsOf(recipients));
      }
    }

    /** This wallet's units when the first n recipients have been served: all, or its own share once it has been
        served. */
    ghost function UnitsBefore(n: nat, lists: seq<seq<string>>, recipients: seq<Wallet>, units: seq<TokenUnit>)
      : seq<TokenUnit>
      requires n <= |recipients|
    {
      if n == 0 then units
      else if recipients[n - 1] == this then Listed(UnitsBefore(n - 1, lists, recipients, units), IdsOf(lists, n - 1))
      else UnitsBefore(n - 1, lists, recipients, units)
    }

    lemma NoneServed(lists: seq<seq<string>>, recipients: seq<Wallet>, units: seq<TokenUnit>)
      ensures UnitsBefore(0, lists, recipients, units) == units
    {
    }

    lemma ServedNext(i: nat, lists: seq<seq<string>>, recipients: seq<Wallet>, units: seq<TokenUnit>)
      requires i < |recipients|
      ensures UnitsBefore(i + 1, lists, recipients, units)
           == if recipients[i] == this then Listed(UnitsBefore(i, lists, recipients, units), IdsOf(lists, i))
              else UnitsBefore(i, lists, recipients, units)
    {
    }

    /** For a source and a remainder that are no recipients: the recipients and the remainder together hold the units
        that the source had if and only if every listed unit is named by exactly one list with a recipient. */
    lemma SplitConserved(lists: seq<seq<string>>, recipients: seq<Wallet>, units: seq<TokenUnit>,
                         shares: seq<seq<TokenUnit>>)
      requires this !in recipients && |shares| == |recipients|
      requires forall i :: 0 <= i < |recipients| ==>
        shares[i] == Listed(UnitsBefore(i, lists, recipients, units), IdsOf(lists, i))
      ensures var kept := Unlisted(UnitsBefore(|recipients|, lists, recipients, units), Union(lists));
              Pool(shares) + multiset(kept) == multiset(units) <==> EachInOneList(units, lists, |recipients|)
    {
      hide Listed, Unlisted, Union, UnitsBefore, IdsOf, Pool;
      forall i | 0 <= i < |shares|
        ensures shares[i] == Listed(units, IdsOf(lists, i))
      {
        UnitsStay(i, lists, recipients, units);
      }
      UnitsStay(|recipients|, lists, recipients, units);
      RecipientsHoldShares(units, lists, shares);
      SplitConservesExactly(units, lists, if |shares| < |lists| then |shares| else |lists|);
    }

    /** Usually the source is no recipient, and every recipient sees all its units. */
    lemma UnitsStay(n: nat, lists: seq<seq<string>>, recipients: seq<Wallet>, units: seq<TokenUnit>)
      requires n <= |recipients| && this !in recipients
      ensures UnitsBefore(n, lists, recipients, units) == units
    {
    }
  }

  /** The units of each wallet. */
  ghost function UnitsOf(ws: seq<Wallet>): (shares: seq<seq<TokenUnit>>)
    reads ws
    ensures |shares| == |ws|
  {
    seq(|ws|, i requires 0 <= i < |ws| reads ws => ws[i].tokenUnits)
  }

  lemma UnitsAre(ws: seq<Wallet>)
    ensures forall i :: 0 <= i < |ws| ==> UnitsOf(ws)[i] == ws[i].tokenUnits
  {
  }

  /** Every listed unit is named by exactly one of the first n lists. */
  predicate EachInOneList(units: seq<TokenUnit>, lists: seq<seq<string>>, n: nat) {
    var served := lists[..if n < |lists| then n else |lists|];
    forall u :: u in units && u.id in Union(lists) ==> Listings(served, u.id) == 1
  }

  lemma {:induction false} UnionMember(lists: seq<seq<string>>, i: nat, id: string)
    requires i < |lists| && id in lists[i]
    ensures id in Union(lists)
    decreases |lists|
  {
    if i < |lists| - 1 {
      UnionMember(lists[..|lists| - 1], i, id);
    }
  }

  // ----- conservation of units

  /** The sequence u consists of a and b, merged without changing the order of either. */
  predicate Interleaved(a: seq<TokenUnit>, b: seq<TokenUnit>, u: seq<TokenUnit>) {
    if u == [] then a == [] && b == []
    else
      var x, t := u[|u| - 1], u[..|u| - 1];
      || (a != [] && a[|a| - 1] == x && Interleaved(a[..|a| - 1], b, t))
      || (b != [] && b[|b| - 1] == x && Interleaved(a, b[..|b| - 1], t))
  }

  lemma {:induction false} InterleavedConserves(a: seq<TokenUnit>, b: seq<TokenUnit>, u: seq<TokenUnit>)
    requires Interleaved(a, b, u)
    ensures multiset(a) + multiset(b) == multiset(u) && |a| + |b| == |u|
  {
    if u != [] {
      var x, t := u[|u| - 1], u[..|u| - 1];
      assert u == t + [x];
      if a != [] && a[|a| - 1] == x && Interleaved(a[..|a| - 1], b, t) {
        InterleavedConserves(a[..|a| - 1], b, t);
        assert a == a[..|a| - 1] + [x];
      } else {
        InterleavedConserves(a, b[..|b| - 1], t);
        assert b == b[..|b| - 1] + [x];
      }
    }
  }

  lemma InterleavedSnoc(a: seq<TokenUnit>, b: seq<TokenUnit>, u: seq<TokenUnit>, x: TokenUnit)
    requires Interleaved(a, b, u)
    ensures Interleaved(a + [x], b, u + [x]) && Interleaved(a, b + [x], u + [x])
  {
    assert (u + [x])[..|u|] == u && (a + [x])[..|a|] == a && (b + [x])[..|b|] == b;
  }

  lemma {:induction false} SplitInterleaves(units: seq<TokenUnit>, ids: seq<string>)
    ensures Interleaved(Listed(units, ids), Unlisted(units, ids), units)
  {
    if units != [] {
      var t, x := units[..|units| - 1], units[|units| - 1];
      SplitInterleaves(t, ids);
      InterleavedSnoc(Listed(t, ids), Unlisted(t, ids), t, x);
      assert units == t + [x];
      assert x.id in ids ==> Unlisted(units, ids) == Unlisted(t, ids);
      assert x.id !in ids ==> Listed(units, ids) == Listed(t, ids);
      hide Interleaved;
    }
  }

  lemma {:induction false} ListedMember(units: seq<TokenUnit>, ids: seq<string>, u: TokenUnit)
    ensures u in Listed(units, ids) <==> u in units && u.id in ids
    ensures u in Unlisted(units, ids) <==> u in units && u.id !in ids
  {
    if units != [] {
      ListedMember(units[..|units| - 1], ids, u);
      assert units == units[..|units| - 1] + [units[|units| - 1]];
    }
  }

  /** A split keeps the order of the source in both parts, and neither loses nor duplicates a unit. */
  lemma SplitConserves(units: seq<TokenUnit>, ids: seq<string>)
    ensures Interleaved(Listed(units, ids), Unlisted(units, ids), units)
    ensures multiset(Listed(units, ids)) + multiset(Unlisted(units, ids)) == multiset(units)
    ensures |Listed(units, ids)| + |Unlisted(units, ids)| == |units|
  {
    SplitInterleaves(units, ids);
    InterleavedConserves(Listed(units, ids), Unlisted(units, ids), units);
  }

  /** No id is listed for two recipients. */
  predicate Disjoint(lists: seq<seq<string>>) {
    forall i, j, id :: 0 <= i < j < |lists| && id in lists[i] ==> id !in lists[j]
  }

  /** The units of all recipients together. */
  function AllShares(units: seq<TokenUnit>, lists: seq<seq<string>>): multiset<TokenUnit> {
    if lists == [] then multiset{}
    else AllShares(units, lists[..|lists| - 1]) + multiset(Listed(units, lists[|lists| - 1]))
  }

  lemma {:induction false} ListedOfBoth(units: seq<TokenUnit>, a: seq<string>, b: seq<string>)
    requires forall id :: id in a ==> id !in b
    ensures multiset(Listed(units, a + b)) == multiset(Listed(units, a)) + multiset(Listed(units, b))
  {
    if units != [] {
      ListedOfBoth(units[..|units| - 1], a, b);
    }
  }

  /** With disjoint lists the recipients partition the sent units. */
  lemma {:induction false} SharesPartitionSent(units: seq<TokenUnit>, lists: seq<seq<string>>)
    requires Disjoint(lists)
    ensures AllShares(units, lists) == multiset(Listed(units, Union(lists)))
  {
    if lists == [] {
      ListedNone(units);
    } else {
      var t, last := lists[..|lists| - 1], lists[|lists| - 1];
      SharesPartitionSent(units, t);
      forall id | id in Union(t)
        ensures id !in last
      {
        UnionHas(t, id);
      }
      ListedOfBoth(units, Union(t), last);
    }
  }

  lemma {:induction false} ListedNone(units: seq<TokenUnit>)
    ensures Listed(units, []) == []
  {
    if units != [] {
      ListedNone(units[..|units| - 1]);
    }
  }

  lemma {:induction false} UnionHas(lists: seq<seq<string>>, id: string)
    requires id in Union(lists)
    ensures exists i :: 0 <= i < |lists| && id in lists[i]
  {
    if id in lists[|lists| - 1] {
    } else {
      UnionHas(lists[..|lists| - 1], id);
      var i :| 0 <= i < |lists| - 1 && id in lists[..|lists| - 1][i];
      assert lists[i] == lists[..|lists| - 1][i];
    }
  }

  /** A split among recipients loses no unit and duplicates none: the shares and the kept units are the source's
      units. */
  lemma MultiSplitConserves(units: seq<TokenUnit>, lists: seq<seq<string>>)
    requires Disjoint(lists)
    ensures AllShares(units, lists) + multiset(Unlisted(units, Union(lists))) == multiset(units)
  {
    SharesPartitionSent(units, lists);
    SplitConserves(units, Union(lists));
  }

  /** How many of the lists contain an id. */
  function Listings(lists: seq<seq<string>>, id: string): nat {
    if lists == [] then 0 else Listings(lists[..|lists| - 1], id) + if id in lists[|lists| - 1] then 1 else 0
  }

  lemma ListedSnoc(t: seq<TokenUnit>, x: TokenUnit, ids: seq<string>)
    ensures Listed(t + [x], ids) == Listed(t, ids) + if x.id in ids then [x] else []
    ensures Unlisted(t + [x], ids) == Unlisted(t, ids) + if x.id in ids then [] else [x]
  {
    assert (t + [x])[..|t|] == t;
  }

  lemma CountSnoc(s: seq<TokenUnit>, x: TokenUnit, u: TokenUnit)
    ensures multiset(s + [x])[u] == multiset(s)[u] + if x == u then 1 else 0
  {
  }

  lemma {:induction false} ListedCount(units: seq<TokenUnit>, ids: seq<string>, u: TokenUnit)
    ensures multiset(Listed(units, ids))[u] == if u.id in ids then multiset(units)[u] else 0
    ensures multiset(Unlisted(units, ids))[u] == if u.id in ids then 0 else multiset(units)[u]
  {
    if units == [] {
    } else {
      hide *;
      var t, x := units[..|units| - 1], units[|units| - 1];
      assert units == t + [x];
      ListedCount(t, ids, u);
      ListedSnoc(t, x, ids);
      CountSnoc(t, x, u);
      CountSnoc(Listed(t, ids), x, u);
      CountSnoc(Unlisted(t, ids), x, u);
      assert Listed(t, ids) + [] == Listed(t, ids) && Unlisted(t, ids) + [] == Unlisted(t, ids);
    }
  }

  lemma NoShares(units: seq<TokenUnit>, id: string)
    ensures AllShares(units, []) == multiset{} && Listings([], id) == 0
  {
  }

  lemma ShareStep(units: seq<TokenUnit>, t: seq<seq<string>>, ids: seq<string>, u: TokenUnit)
    ensures AllShares(units, t + [ids])[u] == AllShares(units, t)[u] + if u.id in ids then multiset(units)[u] else 0
    ensures Listings(t + [ids], u.id) == Listings(t, u.id) + if u.id in ids then 1 else 0
  {
    assert (t + [ids])[..|t|] == t;
    ListedCount(units, ids, u);
  }

  /** A unit is handed out once for every list that contains its id. */
  lemma {:induction false} SharesCount(units: seq<TokenUnit>, lists: seq<seq<string>>, u: TokenUnit)
    ensures AllShares(units, lists)[u] == multiset(units)[u] * Listings(lists, u.id)
  {
    hide *;
    if lists == [] {
      NoShares(units, u.id);
    } else {
      var t, last := lists[..|lists| - 1], lists[|lists| - 1];
      assert lists == t + [last];
      SharesCount(units, t, u);
      ShareStep(units, t, last, u);
      OneMore(multiset(units)[u], Listings(t, u.id));
    }
  }

  lemma {:induction false} UnionListings(lists: seq<seq<string>>, id: string)
    ensures id in Union(lists) <==> Listings(lists, id) > 0
  {
    if lists != [] {
      UnionListings(lists[..|lists| - 1], id);
    }
  }

  lemma {:induction false} FewerListings(lists: seq<seq<string>>, n: nat, id: string)
    requires n <= |lists|
    ensures Listings(lists[..n], id) <= Listings(lists, id)
    decreases |lists|
  {
    if n < |lists| {
      var t := lists[..|lists| - 1];
      assert t[..n] == lists[..n];
      FewerListings(t, n, id);
    } else {
      assert lists[..n] == lists;
    }
  }

  /** What a split does to one unit when the first n lists have a recipient: it appears once per such list, and once in
      the remainder if no list names it. */
  lemma SplitCount(units: seq<TokenUnit>, lists: seq<seq<string>>, n: nat, u: TokenUnit)
    requires n <= |lists|
    ensures (AllShares(units, lists[..n]) + multiset(Unlisted(units, Union(lists))))[u]
         == multiset(units)[u] * (if u.id in Union(lists) then Listings(lists[..n], u.id) else 1)
  {
    hide *;
    SharesCount(units, lists[..n], u);
    ListedCount(units, Union(lists), u);
    UnionListings(lists, u.id);
    FewerListings(lists, n, u.id);
    OneMore(multiset(units)[u], 0);
  }

  /** The exact condition: a split loses no unit and duplicates none if and only if every listed unit of the source is
      listed by exactly one list that has a recipient. Ids that no unit carries do not matter. */
  lemma SplitConservesExactly(units: seq<TokenUnit>, lists: seq<seq<string>>, n: nat)
    requires n <= |lists|
    ensures AllShares(units, lists[..n]) + multiset(Unlisted(units, Union(lists))) == multiset(units)
       <==> EachInOneList(units, lists, n)
  {
    hide AllShares, Union, Unlisted, Listings;
    var all := AllShares(units, lists[..n]) + multiset(Unlisted(units, Union(lists)));
    if all == multiset(units) {
      forall u | u in units && u.id in Union(lists)
        ensures Listings(lists[..n], u.id) == 1
      {
        SplitCount(units, lists, n, u);
        OnlyOne(multiset(units)[u], Listings(lists[..n], u.id));
      }
    }
    if forall u :: u in units && u.id in Union(lists) ==> Listings(lists[..n], u.id) == 1 {
      forall u: TokenUnit
        ensures all[u] == multiset(units)[u]
      {
        SplitCount(units, lists, n, u);
        assert u in units <==> u in multiset(units);
      }
    }
  }

  lemma OnlyOne(x: nat, n: nat)
    requires x > 0 && x == x * n
    ensures n == 1
  {
  }

  /** With a recipient for every list: conservation if and only if no unit of the source is in two lists. */
  lemma SharesConserveExactly(units: seq<TokenUnit>, lists: seq<seq<string>>)
    ensures AllShares(units, lists) + multiset(Unlisted(units, Union(lists))) == multiset(units)
       <==> forall u :: u in units ==> Listings(lists, u.id) <= 1
  {
    SplitConservesExactly(units, lists, |lists|);
    assert lists[..|lists|] == lists;
    hide AllShares, Union, Unlisted, Listings;
    forall u | u in units
      ensures u.id in Union(lists) <==> Listings(lists, u.id) > 0
    {
      UnionListings(lists, u.id);
    }
  }

  /** The units of several wallets together. */
  function Pool(shares: seq<seq<TokenUnit>>): multiset<TokenUnit> {
    if shares == [] then multiset{} else Pool(shares[..|shares| - 1]) + multiset(shares[|shares| - 1])
  }

  /** The ids that splitUnitsMulti takes for recipient i. */
  function IdsOf(lists: seq<seq<string>>, i: nat): seq<string> {
    if i < |lists| then lists[i] else []
  }

  /** What recipients end up with is the shares of the lists that have one; a recipient without a list gets nothing. */
  lemma {:induction false} RecipientsHoldShares(units: seq<TokenUnit>, lists: seq<seq<string>>,
                                                shares: seq<seq<TokenUnit>>)
    requires forall i :: 0 <= i < |shares| ==> shares[i] == Listed(units, IdsOf(lists, i))
    ensures Pool(shares) == AllShares(units, lists[..if |shares| < |lists| then |shares| else |lists|])
  {
    var n := |shares|;
    if n > 0 {
      RecipientsHoldShares(units, lists, shares[..n - 1]);
      if n <= |lists| {
        assert lists[..n][..n - 1] == lists[..n - 1];
      } else {
        ListedNone(units);
      }
    }
  }

  /** With one recipient both functions make the same split: the same sent, received and kept units. */
  lemma OneRecipientAgrees(units: seq<TokenUnit>, ids: seq<string>)
    ensures (Union([ids]) == [] <==> ids == []) && IdsOf([ids], 0) == ids
    ensures Listed(units, Union([ids])) == Listed(units, IdsOf([ids], 0)) == Listed(units, ids)
    ensures Unlisted(units, Union([ids])) == Unlisted(units, ids)
  {
    assert [ids][..0] == [] && [] + ids == ids;
  }

  // ----- the units of a fusion

  /** The first unit with an id. */
  function FindUnit(units: seq<TokenUnit>, id: string): Option<TokenUnit> {
    if units == [] then None
    else if units[0].id == id then Some(units[0])
    else FindUnit(units[1..], id)
  }

  /** The units named by a list of ids, in the order of the list; an id without a unit is an error. */
  function Resolve(units: seq<TokenUnit>, ids: seq<string>): (r: Result<seq<TokenUnit>>)
    ensures r.Ok? ==> |r.value| == |ids|
  {
    if ids == [] then Ok([])
    else
      var before :- Resolve(units, ids[..|ids| - 1]);
      match FindUnit(units, ids[|ids| - 1])
      case None => Err(KnishIOFailure)
      case Some(u) => Ok(before + [u])
  }

  predicate DistinctIds(units: seq<TokenUnit>) {
    forall i, j :: 0 <= i < j < |units| ==> units[i].id != units[j].id
  }

  predicate DistinctStrings(ids: seq<string>) {
    forall i, j :: 0 <= i < j < |ids| ==> ids[i] != ids[j]
  }

  lemma FindUnitMember(units: seq<TokenUnit>, id: string)
    ensures FindUnit(units, id).Some? <==> exists u :: u in units && u.id == id
    ensures FindUnit(units, id).Some? ==> FindUnit(units, id).value in units && FindUnit(units, id).value.id == id
  {
  }

  lemma {:induction false} ListedOne(units: seq<TokenUnit>, id: string)
    requires DistinctIds(units) && FindUnit(units, id).Some?
    ensures Listed(units, [id]) == [FindUnit(units, id).value]
  {
    var u := FindUnit(units, id).value;
    FindUnitMember(units, id);
    var t, last := units[..|units| - 1], units[|units| - 1];
    if last.id == id {
      var i :| 0 <= i < |units| && units[i] == u;
      assert i == |units| - 1;
      ListedNobody(t, id);
    } else {
      var i :| 0 <= i < |units| && units[i] == u;
      assert t[i] == u;
      FindUnitMember(t, id);
      var v := FindUnit(t, id).value;
      var k :| 0 <= k < |t| && t[k] == v;
      assert units[k] == v;
      ListedOne(t, id);
    }
  }

  lemma {:induction false} ListedNobody(units: seq<TokenUnit>, id: string)
    requires forall i :: 0 <= i < |units| ==> units[i].id != id
    ensures Listed(units, [id]) == []
  {
    if units != [] {
      ListedNobody(units[..|units| - 1], id);
    }
  }

  lemma {:induction false} ResolvedAreListed(units: seq<TokenUnit>, ids: seq<string>)
    requires DistinctIds(units) && DistinctStrings(ids) && Resolve(units, ids).Ok?
    ensures multiset(Resolve(units, ids).value) == multiset(Listed(units, ids))
  {
    hide Listed, DistinctIds, FindUnit;
    if ids == [] {
      ListedNone(units);
    } else {
      var t, id := ids[..|ids| - 1], ids[|ids| - 1];
      ResolvedAreListed(units, t);
      ListedOne(units, id);
      ListedOfBoth(units, t, [id]);
      assert ids == t + [id];
    }
  }

  /** With distinct unit ids and distinct fused ids, the fused units, in the caller's order, are the sent units, in the
      source's order; and the kept units are all others. */
  lemma FusedAreSent(units: seq<TokenUnit>, ids: seq<string>)
    requires DistinctIds(units) && DistinctStrings(ids) && Resolve(units, ids).Ok?
    ensures multiset(Resolve(units, ids).value) == multiset(Listed(units, ids))
    ensures |Unlisted(units, ids)| == |units| - |ids|
  {
    hide Listed, Unlisted, Resolve, DistinctIds, DistinctStrings, Interleaved;
    ResolvedAreListed(units, ids);
    SplitConserves(units, ids);
    assert |multiset(Resolve(units, ids).value)| == |multiset(Listed(units, ids))|;
  }
}
