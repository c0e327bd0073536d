/** The ContinuID head of a bundle: several clients of one secret, with different OTS versions, move it on. */
module ContinuId {
  import opened Common
  import opened Hex
  import opened Json
  import opened Ots
  import opened AtomHash
  import opened Wallet
  import opened Verification

  type OtsVersion = x: int | x == 1 || x == 2 witness 1

  // ----- one client

  /** What the ledger serves of a head. */
  datatype Head = Head(position: string, address: string)

  /** continuIdSourceWallet's reading of a query response: anything without a position of 64 characters is no head, and
      an address that is no string is "". */
  function HeadOfResponse(body: Json): Option<Head> {
    match Find(body, "data")
    case None => None
    case Some(data) =>
      match Find(data, "ContinuId")
      case None => None
      case Some(cid) =>
        match Find(cid, "position")
        case Some(JStr(position)) =>
          if |position| != 64 then None
          else
            Some(Head(position, match Find(cid, "address") case Some(JStr(address)) => address case _ => ""))
        case _ => None
  }

  /** The addresses of one secret's USER wallets, by position and OTS version. */
  type Addresses = (string, int) -> string

  predicate IsAddress(a: string) {
    |a| == 64 && LowerHex(a)
  }

  function NoAddress(): (a: string)
    ensures IsAddress(a)
  {
    seq(64, _ => '0')
  }

  /** detectOtsVersion for a wallet of this secret: the preferred version is tried first, against the address in lower
      case. */
  function Detect(addr: Addresses, preferred: OtsVersion, position: string, address: string): Option<OtsVersion> {
    var other: OtsVersion := if preferred == 1 then 2 else 1;
    if addr(position, preferred) == Lower(address) then Some(preferred)
    else if addr(position, other) == Lower(address) then Some(other)
    else None
  }

  /** bindOwnWalletOtsVersion for the USER token. */
  function BindVersion(addr: Addresses, preferred: OtsVersion, position: string, address: string): Result<OtsVersion> {
    if position == "" || address == "" then Ok(preferred)
    else
      match Detect(addr, preferred, position, address)
      case None => Err(KnishIOFailure)
      case Some(version) => Ok(version)
  }

  /** requestAuthToken's reading of the pointer; no version means that it falls back to a fresh AUTH wallet. */
  function PointerVersion(addr: Addresses, own: OtsVersion, pointer: Head): Option<OtsVersion> {
    if pointer.address == "" then Some(own) else Detect(addr, own, pointer.position, pointer.address)
  }

  function SuccessorVersion(source: OtsVersion, own: OtsVersion): OtsVersion {
    if source < own then own else source
  }

  /** A USER wallet that a client makes. */
  datatype UserWallet = UserWallet(position: string, address: string, version: OtsVersion)

  function MakeWallet(addr: Addresses, position: string, version: OtsVersion): UserWallet {
    UserWallet(position, addr(position, version), version)
  }

  /** continuIdSourceWallet: the wallet at the head, or a new one at a random position for a bundle without a head. */
  function SourceWallet(addr: Addresses, own: OtsVersion, body: Json, random: string): Result<UserWallet> {
    match HeadOfResponse(body)
    case None => Ok(MakeWallet(addr, random, own))
    case Some(h) =>
      var version :- BindVersion(addr, own, h.position, h.address);
      Ok(MakeWallet(addr, h.position, version))
  }

  /** The two wallets of a molecule: it is signed at the source, and the remainder becomes the head. */
  datatype Move = Move(source: UserWallet, remainder: UserWallet)

  /** The wallets of a USER-signed operation. */
  function Prepare(addr: Addresses, own: OtsVersion, body: Json, random: string, next: string): Result<Move> {
    var source :- SourceWallet(addr, own, body, random);
    Ok(Move(source, MakeWallet(addr, next, SuccessorVersion(source.version, own))))
  }

  /** The wallets of a login from the pointer; none when it falls back. */
  function PrepareLogin(addr: Addresses, own: OtsVersion, pointer: Head, next: string): Option<Move> {
    match PointerVersion(addr, own, pointer)
    case None => None
    case Some(version) =>
      Some(Move(MakeWallet(addr, pointer.position, version), MakeWallet(addr, next, SuccessorVersion(version, own))))
  }

  // ----- the addresses of a secret

  /** The addresses that key derivation gives; an empty position has no wallet, nor has another version. */
  function AddressesOf(xof: Xof, secret: string): Addresses
    requires secret != ""
  {
    (p: string, v: int) => AddressAt(xof, secret, p, v)
  }

  function AddressAt(xof: Xof, secret: string, position: string, version: int): (a: string)
    requires secret != ""
    ensures IsAddress(a)
  {
    match WalletKey(xof, secret, "USER", position, version)
    case Err(_) => NoAddress()
    case Ok(key) => Address(xof, key)
  }

  /** Version detection by key derivation is the detection above, on the secret's addresses. */
  lemma DetectIsByDerivation(xof: Xof, secret: string, preferred: OtsVersion, position: string, address: string)
    requires secret != ""
    ensures DetectOtsVersion(xof, secret, "USER", position, address, preferred)
         == Ok(if position == "" || address == "" then None
               else Detect(AddressesOf(xof, secret), preferred, position, address))
  {
    hide Address, WalletKey, Lower;
  }

  /** The wallet that a client makes signs for its own address: a molecule whose first atom comes from it satisfies the
      address condition of verification. */
  lemma MadeWalletIsOwn(xof: Xof, secret: string, position: string, version: OtsVersion, rest: WalletView)
    requires secret != "" && position != ""
    ensures var w := MakeWallet(AddressesOf(xof, secret), position, version);
            OwnWallet(xof, rest.(position := w.position, token := "USER", address := w.address,
                                 otsVersion := w.version), secret)
  {
    hide Address;
  }

  // ----- detection

  predicate Collides(addr: Addresses, position: string) {
    addr(position, 1) == addr(position, 2)
  }

  /** Addresses are 64 lower-case hex digits. */
  ghost predicate WellFormed(addr: Addresses) {
    forall p: string, v: int {:trigger addr(p, v)} :: IsAddress(addr(p, v))
  }

  /** No one of some positions has the same address under both versions. */
  predicate NoCollision(addr: Addresses, positions: seq<string>) {
    forall p :: p in positions ==> !Collides(addr, p)
  }

  /** The addresses of a secret are well formed, and two versions collide at a position exactly when their keys'
      addresses do. */
  lemma DerivedAddresses(xof: Xof, secret: string, position: string)
    requires secret != "" && position != ""
    ensures WellFormed(AddressesOf(xof, secret))
    ensures Collides(AddressesOf(xof, secret), position)
       <==> Address(xof, WalletKey(xof, secret, "USER", position, 1).value)
            == Address(xof, WalletKey(xof, secret, "USER", position, 2).value)
  {
    hide Address, WalletKey;
  }

  /** Detection finds nothing for an address of neither version, and does not depend on its letter case. */
  lemma DetectUnknown(addr: Addresses, preferred: OtsVersion, position: string, address: string)
    ensures Detect(addr, preferred, position, address).None? <==>
      Lower(address) !in {addr(position, 1), addr(position, 2)}
    ensures Detect(addr, preferred, position, Lower(address)) == Detect(addr, preferred, position, address)
  {
    assert Lower(Lower(address)) == Lower(address);
    hide Lower;
  }

  /** A served address of neither version is an error when binding, and no version for a login. */
  lemma ForeignAddress(addr: Addresses, preferred: OtsVersion, position: string, address: string)
    requires position != "" && address != "" && Lower(address) !in {addr(position, 1), addr(position, 2)}
    ensures BindVersion(addr, preferred, position, address) == Err(KnishIOFailure)
    ensures PointerVersion(addr, preferred, Head(position, address)) == None
  {
    hide Lower;
  }

  /** The value under a path of keys. */
  function AtPath(json: Json, keys: seq<string>): Option<Json>
    decreases |keys|
  {
    if keys == [] then Some(json)
    else
      match Find(json, keys[0])
      case None => None
      case Some(v) => AtPath(v, keys[1..])
  }

  /** A response serves a head if and only if it has a position of 64 characters under data.ContinuId; the address is
      that beside it, or empty. */
  lemma HeadServed(body: Json, position: string, address: string)
    ensures HeadOfResponse(body) == Some(Head(position, address)) <==>
      && |position| == 64 && AtPath(body, ["data", "ContinuId", "position"]) == Some(JStr(position))
      && address == match AtPath(body, ["data", "ContinuId", "address"]) case Some(JStr(a)) => a case _ => ""
  {
    PathOfThree(body, "data", "ContinuId", "position");
    PathOfThree(body, "data", "ContinuId", "address");
    hide Find, AtPath;
  }

  lemma PathOfThree(json: Json, a: string, b: string, c: string)
    ensures AtPath(json, [a, b, c]) ==
            match Find(json, a)
            case None => None
            case Some(v) => match Find(v, b) case None => None case Some(w) => Find(w, c)
  {
    hide Find, AtPath;
    assert [a] + [b, c] == [a, b, c] && [b] + [c] == [b, c];
    PathStep(json, a, [b, c]);
    if Find(json, a).Some? {
      var v := Find(json, a).value;
      PathStep(v, b, [c]);
      if Find(v, b).Some? {
        PathEnds(Find(v, b).value, c);
      }
    }
  }

  lemma PathStep(json: Json, key: string, rest: seq<string>)
    ensures AtPath(json, [key] + rest) == match Find(json, key) case None => None case Some(v) => AtPath(v, rest)
  {
    assert ([key] + rest)[1..] == rest;
  }

  lemma PathEnds(json: Json, key: string)
    ensures AtPath(json, [key]) == Find(json, key)
  {
    PathStep(json, key, []);
    assert [key] + [] == [key];
  }

  /** Trying both versions finds one whose address it is: the one it was made at, unless the position collides and the
      other one is preferred. */
  lemma DetectExact(addr: Addresses, preferred: OtsVersion, position: string, version: OtsVersion)
    requires IsAddress(addr(position, version))
    ensures var found := Detect(addr, preferred, position, addr(position, version));
            && found.Some? && addr(position, found.value) == addr(position, version)
            && (found.value == version <==> !Collides(addr, position) || preferred == version)
  {
    LowerOfLower(addr(position, version));
    hide Lower;
  }

  /** Binding a served head, and reading a pointer, recover the version that the wallet was made at if and only if it is
      the client's own, or an address is served and the position does not collide. */
  lemma BindExact(addr: Addresses, preferred: OtsVersion, position: string, address: string, version: OtsVersion)
    requires position != "" && IsAddress(addr(position, version))
    requires address == "" || address == addr(position, version)
    ensures BindVersion(addr, preferred, position, address) == Ok(version)
       <==> preferred == version || (address != "" && !Collides(addr, position))
    ensures PointerVersion(addr, preferred, Head(position, address)) == Some(version)
       <==> preferred == version || (address != "" && !Collides(addr, position))
  {
    hide Detect, Collides;
    if address != "" {
      DetectExact(addr, preferred, position, version);
    }
  }

  // ----- many clients

  /** The head and the version it was made at, the moves that clients have prepared, every position ever generated, and
      the log of accepted molecules: the positions that signed and the clients that acted. Version 1 stands for no head
      yet. */
  datatype State = State(
    head: Option<Head>,
    version: OtsVersion,
    pending: map<nat, Move>,
    used: set<string>,
    spent: seq<string>,
    acted: seq<nat>)

  /** A client prepares an operation from a response that serves the current head; it logs in from the head; its
      molecule is accepted; or it gives up. random and next are the positions it generates. */
  datatype Action =
    | Read(client: nat, body: Json, random: string, next: string)
    | Login(client: nat, next: string)
    | Submit(client: nat)
    | Drop(client: nat)

  predicate FreshPosition(s: State, p: string) {
    |p| == 64 && p !in s.used
  }

  /** A molecule is accepted only when it signs at the current head. */
  predicate SignsAtHead(s: State, m: Move) {
    s.head.Some? ==> s.head.value == Head(m.source.position, m.source.address)
  }

  /** The remainder of an accepted move becomes the head. */
  function Accepted(s: State, c: nat): State
    requires c in s.pending
  {
    var m := s.pending[c];
    State(Some(Head(m.remainder.position, m.remainder.address)), m.remainder.version, s.pending - {c}, s.used,
          s.spent + [m.source.position], s.acted + [c])
  }

  /** One step; none when the step is not possible or the client's code throws. */
  function Step(addr: Addresses, own: nat -> OtsVersion, s: State, a: Action): Option<State> {
    match a
    case Read(c, body, random, next) =>
      if HeadOfResponse(body) != s.head || random == next || !FreshPosition(s, random) || !FreshPosition(s, next)
      then None
      else
        (match Prepare(addr, own(c), body, random, next)
         case Err(_) => None
         case Ok(m) => Some(s.(pending := s.pending[c := m], used := s.used + {random, next})))
    case Login(c, next) =>
      if s.head.None? || !FreshPosition(s, next) then None
      else
        (match PrepareLogin(addr, own(c), s.head.value, next)
         case None => None
         case Some(m) => Some(s.(pending := s.pending[c := m], used := s.used + {next})))
    case Submit(c) =>
      if c !in s.pending || !SignsAtHead(s, s.pending[c]) then None
      else
        Some(Accepted(s, c))
    case Drop(c) => Some(s.(pending := s.pending - {c}))
  }

  function Run(addr: Addresses, own: nat -> OtsVersion, s: State, actions: seq<Action>): Option<State> {
    if actions == [] then Some(s)
    else
      match Run(addr, own, s, actions[..|actions| - 1])
      case None => None
      case Some(t) => Step(addr, own, t, actions[|actions| - 1])
  }

  /** The highest of a version and the own versions of some clients. */
  function Highest(start: OtsVersion, own: nat -> OtsVersion, clients: seq<nat>): OtsVersion {
    if clients == [] then start
    else
      var before := Highest(start, own, clients[..|clients| - 1]);
      var last := own(clients[|clients| - 1]);
      if before < last then last else before
  }

  /** Nothing has happened yet; a head, if any, serves the address of the secret's wallet at its version. */
  predicate Initial(addr: Addresses, s: State) {
    && s.pending == map[] && s.spent == [] && s.acted == []
    && match s.head
       case None => s.version == 1
       case Some(h) => |h.position| == 64 && h.position in s.used && h.address == addr(h.position, s.version)
  }

  // ----- the invariant

  predicate Distinct(positions: seq<string>) {
    forall i, j :: 0 <= i < j < |positions| ==> positions[i] != positions[j]
  }

  /** A wallet of this secret, at a generated position. */
  predicate Genuine(addr: Addresses, s: State, w: UserWallet) {
    |w.position| == 64 && w.position in s.used && w.address == addr(w.position, w.version)
  }

  predicate HeadGood(addr: Addresses, s: State) {
    match s.head
    case None => s.version == 1 && s.spent == [] && s.acted == []
    case Some(h) => Genuine(addr, s, UserWallet(h.position, h.address, s.version)) && h.position !in s.spent
  }

  /** A prepared move has genuine wallets, and its remainder has not been seen anywhere. */
  predicate MoveGood(addr: Addresses, own: OtsVersion, s: State, m: Move) {
    && Genuine(addr, s, m.source) && Genuine(addr, s, m.remainder)
    && m.remainder.version == SuccessorVersion(m.source.version, own)
    && m.remainder.position !in s.spent
    && (s.head.Some? ==> m.remainder.position != s.head.value.position)
    && (s.head.None? ==> m.source.version == own)
  }

  /** No remainder is the remainder or the source of another move, nor its own source. */
  predicate MovesApart(s: State) {
    && (forall c, d :: c in s.pending && d in s.pending ==>
          s.pending[c].remainder.position != s.pending[d].source.position)
    && (forall c, d :: c in s.pending && d in s.pending && c != d ==>
          s.pending[c].remainder.position != s.pending[d].remainder.position)
  }

  ghost predicate Invariant(addr: Addresses, own: nat -> OtsVersion, s: State) {
    && HeadGood(addr, s)
    && (forall c :: c in s.pending ==> MoveGood(addr, own(c), s, s.pending[c]))
    && MovesApart(s)
    && Distinct(s.spent) && (forall p :: p in s.spent ==> p in s.used)
  }

  /** A move whose source has the head's position and address, or, without a head, is the client's own; both wallets are
      genuine once the generated positions are on record. */
  predicate MoveFrom(addr: Addresses, own: OtsVersion, s: State, random: string, next: string, made: set<string>,
                     m: Move) {
    var t := s.(used := s.used + made);
    && Genuine(addr, t, m.source) && Genuine(addr, t, m.remainder)
    && (match s.head
        case None => m.source.position == random && m.source.version == own
        case Some(h) => m.source.position == h.position && m.source.address == h.address)
    && m.remainder.position == next
    && m.remainder.version == SuccessorVersion(m.source.version, own)
  }

  /** A client that reads the head gets its address, and its version unless the position collides and the client's
      own is another. */
  lemma SourceIs(addr: Addresses, own: OtsVersion, s: State, body: Json, random: string)
    requires WellFormed(addr) && HeadGood(addr, s) && s.head.Some? && HeadOfResponse(body) == s.head
    ensures var w := SourceWallet(addr, own, body, random);
            && w.Ok? && Genuine(addr, s, w.value) && w.value.position == s.head.value.position
            && w.value.address == s.head.value.address
            && (w.value.version == s.version <==> !Collides(addr, s.head.value.position) || own == s.version)
  {
    hide HeadOfResponse, Detect;
    var h := s.head.value;
    assert IsAddress(addr(h.position, s.version));
    DetectExact(addr, own, h.position, s.version);
  }

  lemma PreparedIs(addr: Addresses, own: OtsVersion, s: State, body: Json, random: string, next: string)
    requires WellFormed(addr) && HeadGood(addr, s) && HeadOfResponse(body) == s.head
    requires |random| == 64 && |next| == 64
    ensures Prepare(addr, own, body, random, next).Ok?
    ensures MoveFrom(addr, own, s, random, next, {random, next}, Prepare(addr, own, body, random, next).value)
  {
    if s.head.Some? {
      SourceIs(addr, own, s, body, random);
    }
    hide HeadOfResponse, WellFormed, BindVersion;
  }

  lemma LoginIs(addr: Addresses, own: OtsVersion, s: State, next: string)
    requires WellFormed(addr) && HeadGood(addr, s) && s.head.Some? && |next| == 64
    ensures PrepareLogin(addr, own, s.head.value, next).Some?
    ensures MoveFrom(addr, own, s, "", next, {next}, PrepareLogin(addr, own, s.head.value, next).value)
  {
    hide Detect;
    var h := s.head.value;
    assert IsAddress(addr(h.position, s.version));
    DetectExact(addr, own, h.position, s.version);
  }

  lemma PendingApart(addr: Addresses, own: nat -> OtsVersion, s: State, c: nat, m: Move, made: set<string>,
                     random: string, next: string)
    requires Invariant(addr, own, s)
    requires MoveFrom(addr, own(c), s, random, next, made, m)
    requires m.remainder.position !in s.used && m.source.position != m.remainder.position
    requires s.head.None? ==> m.source.position !in s.used
    ensures MovesApart(s.(pending := s.pending[c := m]))
  {
    hide Distinct;
    forall d | d in s.pending
      ensures m.remainder.position != s.pending[d].source.position
           && m.remainder.position != s.pending[d].remainder.position
      ensures m.source.position != s.pending[d].remainder.position
    {
      assert MoveGood(addr, own(d), s, s.pending[d]);
    }
  }

  lemma ApartFrame(s: State, pending: map<nat, Move>, made: set<string>)
    requires MovesApart(s.(pending := pending))
    ensures MovesApart(s.(pending := pending, used := s.used + made))
  {
  }

  /** Adding a prepared move keeps the invariant. */
  lemma PendingKeeps(addr: Addresses, own: nat -> OtsVersion, s: State, c: nat, m: Move, made: set<string>,
                     random: string, next: string)
    requires Invariant(addr, own, s)
    requires MoveFrom(addr, own(c), s, random, next, made, m)
    requires m.remainder.position !in s.used && m.source.position != m.remainder.position
    requires s.head.None? ==> m.source.position !in s.used
    ensures Invariant(addr, own, s.(pending := s.pending[c := m], used := s.used + made))
  {
    hide Distinct, MovesApart;
    PendingApart(addr, own, s, c, m, made, random, next);
    ApartFrame(s, s.pending[c := m], made);
  }

  /** Accepting a move keeps the invariant: its source has not signed before. */
  lemma SubmitKeeps(addr: Addresses, own: nat -> OtsVersion, s: State, c: nat)
    requires Invariant(addr, own, s) && c in s.pending && SignsAtHead(s, s.pending[c])
    ensures s.pending[c].source.position !in s.spent
    ensures Invariant(addr, own, Accepted(s, c))
  {
    hide MovesApart;
    SubmitKeepsMoves(addr, own, s, c);
    assert MoveGood(addr, own(c), s, s.pending[c]);
    hide MoveGood;
  }

  lemma SubmitKeepsMoves(addr: Addresses, own: nat -> OtsVersion, s: State, c: nat)
    requires Invariant(addr, own, s) && c in s.pending
    ensures var t := Accepted(s, c);
            MovesApart(t) && HeadGood(addr, t) && forall d :: d in t.pending ==> MoveGood(addr, own(d), t, t.pending[d])
  {
    hide Distinct;
  }

  lemma DropKeeps(addr: Addresses, own: nat -> OtsVersion, s: State, c: nat)
    requires Invariant(addr, own, s)
    ensures Invariant(addr, own, s.(pending := s.pending - {c}))
  {
    hide Distinct;
  }

  lemma ReadKeeps(addr: Addresses, own: nat -> OtsVersion, s: State, c: nat, body: Json, random: string, next: string)
    requires WellFormed(addr) && Invariant(addr, own, s) && HeadOfResponse(body) == s.head
    requires FreshPosition(s, random) && FreshPosition(s, next) && random != next
    ensures Prepare(addr, own(c), body, random, next).Ok?
    ensures var m := Prepare(addr, own(c), body, random, next).value;
            Invariant(addr, own, s.(pending := s.pending[c := m], used := s.used + {random, next}))
  {
    hide Prepare, HeadOfResponse, MovesApart, Distinct, MoveGood, WellFormed;
    PreparedIs(addr, own(c), s, body, random, next);
    PendingKeeps(addr, own, s, c, Prepare(addr, own(c), body, random, next).value, {random, next}, random, next);
  }

  lemma LoginKeeps(addr: Addresses, own: nat -> OtsVersion, s: State, c: nat, next: string)
    requires WellFormed(addr) && Invariant(addr, own, s) && s.head.Some? && FreshPosition(s, next)
    ensures PrepareLogin(addr, own(c), s.head.value, next).Some?
    ensures var m := PrepareLogin(addr, own(c), s.head.value, next).value;
            Invariant(addr, own, s.(pending := s.pending[c := m], used := s.used + {next}))
  {
    hide PrepareLogin, MovesApart, Distinct, MoveGood, WellFormed;
    LoginIs(addr, own(c), s, next);
    PendingKeeps(addr, own, s, c, PrepareLogin(addr, own(c), s.head.value, next).value, {next}, "", next);
  }

  lemma StepKeeps(addr: Addresses, own: nat -> OtsVersion, s: State, a: Action)
    requires WellFormed(addr) && Invariant(addr, own, s)
    requires Step(addr, own, s, a).Some?
    ensures Invariant(addr, own, Step(addr, own, s, a).value)
  {
    hide Prepare, PrepareLogin, HeadOfResponse, Invariant, WellFormed, FreshPosition, SignsAtHead, Accepted;
    match a {
      case Read(c, body, random, next) =>
        ReadKeeps(addr, own, s, c, body, random, next);
      case Login(c, next) =>
        LoginKeeps(addr, own, s, c, next);
      case Submit(c) =>
        SubmitKeeps(addr, own, s, c);
      case Drop(c) =>
        DropKeeps(addr, own, s, c);
    }
  }

  lemma InitialGood(addr: Addresses, own: nat -> OtsVersion, s: State)
    requires Initial(addr, s)
    ensures Invariant(addr, own, s)
  {
  }

  lemma {:induction false} RunKeeps(addr: Addresses, own: nat -> OtsVersion, s: State, actions: seq<Action>)
    requires WellFormed(addr) && Initial(addr, s)
    requires Run(addr, own, s, actions).Some?
    ensures Invariant(addr, own, Run(addr, own, s, actions).value)
  {
    hide Invariant, Initial, Step;
    if actions == [] {
      InitialGood(addr, own, s);
    } else {
      var t := actions[..|actions| - 1];
      RunKeeps(addr, own, s, t);
      StepKeeps(addr, own, Run(addr, own, s, t).value, actions[|actions| - 1]);
    }
  }

  lemma RunSnoc(addr: Addresses, own: nat -> OtsVersion, s: State, actions: seq<Action>, a: Action)
    ensures Run(addr, own, s, actions + [a])
         == if Run(addr, own, s, actions).None? then None else Step(addr, own, Run(addr, own, s, actions).value, a)
  {
    hide Step;
    assert (actions + [a])[..|actions|] == actions;
  }

  lemma InvariantHead(addr: Addresses, own: nat -> OtsVersion, s: State)
    requires Invariant(addr, own, s)
    ensures HeadGood(addr, s) && Distinct(s.spent)
  {
  }

  // ----- one-time safety, without any assumption on collisions

  /** In no run does a position sign two accepted molecules, whether addresses collide or not. */
  lemma NoPositionSignsTwice(addr: Addresses, own: nat -> OtsVersion, s: State, actions: seq<Action>)
    requires WellFormed(addr) && Initial(addr, s)
    requires Run(addr, own, s, actions).Some?
    ensures var t := Run(addr, own, s, actions).value;
            Distinct(t.spent) && |t.spent| == |t.acted|
  {
    hide *;
    RunKeeps(addr, own, s, actions);
    InvariantHead(addr, own, Run(addr, own, s, actions).value);
    InitialLogs(addr, s);
    LogsAgree(addr, own, s, actions);
  }

  lemma InitialLogs(addr: Addresses, s: State)
    requires Initial(addr, s)
    ensures s.spent == [] && s.acted == []
  {
  }

  lemma {:induction false} LogsAgree(addr: Addresses, own: nat -> OtsVersion, s: State, actions: seq<Action>)
    requires |s.spent| == |s.acted| && Run(addr, own, s, actions).Some?
    ensures var t := Run(addr, own, s, actions).value;
            |t.spent| == |t.acted|
  {
    if actions != [] {
      LogsAgree(addr, own, s, actions[..|actions| - 1]);
      hide Prepare, PrepareLogin, HeadOfResponse;
    }
  }

  /** A client that gives up has nothing left to submit. */
  lemma DroppedMoveIsGone(addr: Addresses, own: nat -> OtsVersion, s: State, actions: seq<Action>, c: nat)
    requires Run(addr, own, s, actions).Some?
    ensures Run(addr, own, s, actions + [Drop(c)]).Some?
    ensures Run(addr, own, s, actions + [Drop(c)] + [Submit(c)]) == None
  {
    RunSnoc(addr, own, s, actions, Drop(c));
    RunSnoc(addr, own, s, actions + [Drop(c)], Submit(c));
    hide Run;
  }

  /** What has signed cannot sign again: in every reachable state a prepared move whose source position is spent is
      rejected. */
  lemma SpentMoveIsRejected(addr: Addresses, own: nat -> OtsVersion, s: State, actions: seq<Action>, c: nat)
    requires WellFormed(addr) && Initial(addr, s)
    requires Run(addr, own, s, actions).Some?
    requires var t := Run(addr, own, s, actions).value; c in t.pending && t.pending[c].source.position in t.spent
    ensures Run(addr, own, s, actions + [Submit(c)]) == None
  {
    hide *;
    RunKeeps(addr, own, s, actions);
    SpentIsRejected(addr, own, Run(addr, own, s, actions).value, c);
    RunSnoc(addr, own, s, actions, Submit(c));
  }

  lemma SpentIsRejected(addr: Addresses, own: nat -> OtsVersion, s: State, c: nat)
    requires Invariant(addr, own, s) && c in s.pending && s.pending[c].source.position in s.spent
    ensures Step(addr, own, s, Submit(c)) == None
  {
    hide MovesApart, MoveGood, Distinct;
  }

  /** The relay goes on: in every reachable state a client that reads the head and submits at once is accepted, and its
      new position becomes the head, at no lower version than the client's own. */
  lemma ReadThenSubmitIsAccepted(addr: Addresses, own: nat -> OtsVersion, s: State, actions: seq<Action>, c: nat,
                                 body: Json, random: string, next: string)
    requires WellFormed(addr) && Initial(addr, s)
    requires Run(addr, own, s, actions).Some?
    requires var t := Run(addr, own, s, actions).value;
             HeadOfResponse(body) == t.head && FreshPosition(t, random) && FreshPosition(t, next) && random != next
    ensures var t := Run(addr, own, s, actions).value;
            var u := Run(addr, own, s, actions + [Read(c, body, random, next)] + [Submit(c)]);
            && u.Some? && u.value.head.Some? && u.value.head.value.position == next && own(c) <= u.value.version
            && (t.head.Some? && !Collides(addr, t.head.value.position) ==>
                  u.value.version == SuccessorVersion(t.version, own(c)))
  {
    hide *;
    RunKeeps(addr, own, s, actions);
    var t := Run(addr, own, s, actions).value;
    InvariantHead(addr, own, t);
    ReadThenSubmit(addr, own, t, c, body, random, next);
    RunSnoc(addr, own, s, actions, Read(c, body, random, next));
    RunSnoc(addr, own, s, actions + [Read(c, body, random, next)], Submit(c));
  }

  lemma ReadThenSubmit(addr: Addresses, own: nat -> OtsVersion, s: State, c: nat, body: Json, random: string,
                       next: string)
    requires WellFormed(addr) && HeadGood(addr, s) && HeadOfResponse(body) == s.head
    requires FreshPosition(s, random) && FreshPosition(s, next) && random != next
    ensures var t := Step(addr, own, s, Read(c, body, random, next));
            && t.Some?
            && var u := Step(addr, own, t.value, Submit(c));
               && u.Some? && u.value.head.Some? && u.value.head.value.position == next && own(c) <= u.value.version
               && (s.head.Some? && !Collides(addr, s.head.value.position) ==>
                     u.value.version == SuccessorVersion(s.version, own(c)))
  {
    hide WellFormed, HeadOfResponse, SourceWallet, Collides;
    PreparedIs(addr, own(c), s, body, random, next);
    if s.head.Some? {
      SourceIs(addr, own(c), s, body, random);
    }
  }

  // ----- versions, without a collision at a position that signed

  /** An accepted move was prepared at the head's true version. */
  lemma AcceptedAtTrueVersion(addr: Addresses, own: nat -> OtsVersion, s: State, c: nat)
    requires Invariant(addr, own, s) && c in s.pending && SignsAtHead(s, s.pending[c])
    requires !Collides(addr, s.pending[c].source.position)
    ensures s.head.Some? ==> s.pending[c].source.version == s.version
    ensures s.pending[c].remainder.version == SuccessorVersion(s.version, own(c))
  {
    hide Distinct, MovesApart;
    assert MoveGood(addr, own(c), s, s.pending[c]);
  }

  lemma HighestSnoc(start: OtsVersion, own: nat -> OtsVersion, clients: seq<nat>, c: nat)
    ensures Highest(start, own, clients + [c]) == SuccessorVersion(Highest(start, own, clients), own(c))
  {
    assert (clients + [c])[..|clients|] == clients;
  }

  /** One step moves the version as the log says, and keeps what has been spent. */
  lemma StepVersion(addr: Addresses, own: nat -> OtsVersion, start: OtsVersion, s: State, a: Action)
    requires Invariant(addr, own, s) && Step(addr, own, s, a).Some?
    requires NoCollision(addr, Step(addr, own, s, a).value.spent)
    ensures NoCollision(addr, s.spent)
    ensures s.version <= Step(addr, own, s, a).value.version
    ensures s.version == Highest(start, own, s.acted) ==>
      Step(addr, own, s, a).value.version == Highest(start, own, Step(addr, own, s, a).value.acted)
  {
    hide Prepare, PrepareLogin, HeadOfResponse, Invariant, Collides, Highest;
    if a.Submit? {
      var t := Step(addr, own, s, a).value;
      assert t.spent[|s.spent|] == s.pending[a.client].source.position;
      AcceptedAtTrueVersion(addr, own, s, a.client);
      HighestSnoc(start, own, s.acted, a.client);
    }
  }

  /** After any run the head's version is the highest of its start and of the clients whose molecules were accepted,
      provided no position that signed has the same address under both versions. */
  lemma {:induction false} HeadVersionIsHighest(addr: Addresses, own: nat -> OtsVersion, s: State, actions: seq<Action>)
    requires WellFormed(addr) && Initial(addr, s)
    requires Run(addr, own, s, actions).Some? && NoCollision(addr, Run(addr, own, s, actions).value.spent)
    ensures var t := Run(addr, own, s, actions).value;
            t.version == Highest(s.version, own, t.acted)
  {
    hide WellFormed, Initial, Step, NoCollision;
    if actions == [] {
      InitialLogs(addr, s);
    } else {
      var before := actions[..|actions| - 1];
      RunKeeps(addr, own, s, before);
      StepVersion(addr, own, s.version, Run(addr, own, s, before).value, actions[|actions| - 1]);
      HeadVersionIsHighest(addr, own, s, before);
    }
  }

  /** The head's version never goes down, step by step. */
  lemma VersionNeverDecreases(addr: Addresses, own: nat -> OtsVersion, s: State, actions: seq<Action>, a: Action)
    requires WellFormed(addr) && Initial(addr, s)
    requires Run(addr, own, s, actions + [a]).Some? && NoCollision(addr, Run(addr, own, s, actions + [a]).value.spent)
    ensures Run(addr, own, s, actions).Some?
    ensures Run(addr, own, s, actions).value.version <= Run(addr, own, s, actions + [a]).value.version
  {
    hide *;
    RunSnoc(addr, own, s, actions, a);
    RunKeeps(addr, own, s, actions);
    StepVersion(addr, own, s.version, Run(addr, own, s, actions).value, a);
  }

  /** In every reachable state every client that reads the head signs with a wallet at the head's address; it works out
      the version it was made at if and only if the position does not collide or that version is its own. */
  lemma DetectionRecoversVersion(addr: Addresses, own: nat -> OtsVersion, s: State, actions: seq<Action>, c: nat,
                                 body: Json, random: string)
    requires WellFormed(addr) && Initial(addr, s)
    requires Run(addr, own, s, actions).Some?
    requires var t := Run(addr, own, s, actions).value; t.head.Some? && HeadOfResponse(body) == t.head
    ensures var t := Run(addr, own, s, actions).value;
            var w := SourceWallet(addr, own(c), body, random);
            && w.Ok? && w.value.position == t.head.value.position && w.value.address == t.head.value.address
            && (w.value.version == t.version <==> !Collides(addr, t.head.value.position) || own(c) == t.version)
  {
    hide *;
    RunKeeps(addr, own, s, actions);
    InvariantHead(addr, own, Run(addr, own, s, actions).value);
    SourceIs(addr, own(c), Run(addr, own, s, actions).value, body, random);
  }
}
