/** Reachable states in which the pool does not do what its words promise. */
module PoolCases {
  import opened Wrappers
  import opened MinHeap
  import opened NonceList
  import opened PoolModel
  import opened PoolProtocol
  import opened Reorganization
  import opened PassProtocol

  const ACCOUNT: bytes := [0]
  const CONFIG: PoolConfig := PoolConfig(10, 10, 0, 1, 100)
  const FIRST: Tx := Tx([1], ACCOUNT, 1, 1, 1)
  const SECOND: Tx := Tx([2], ACCOUNT, 2, 1, 1)
  const THIRD: Tx := Tx([3], ACCOUNT, 3, 9, 1)
  const DEARER: Tx := Tx([4], ACCOUNT, 2, 2, 1)

  /** The transactions behind the ids. */
  function Content(id: bytes): Tx {
    if id == [1] then FIRST else if id == [2] then SECOND else if id == [3] then THIRD else DEARER
  }

  /* ---- Adding to a pool with room ---- */

  /** In a pool with room an admissible transaction is checked and committed at once. */
  lemma AddWithRoom(s: PassSystem, c: PoolConfig, content: bytes -> Tx, tx: Tx, status: TransactionStatus) returns (t: PassSystem)
    requires PassReachable(s, c, content) && c.maxTransactions >= 1 && c.maxTransactionsPerAccount >= 1
    requires |s.system.pool.all| < c.maxTransactions && Admissible(s.system.pool, c, tx) && Genuine(tx, content) && status != Invalid
    ensures PassReachable(t, c, content) && t.passes == s.passes
    ensures t.system.pool == InsertTx(s.system.pool, c, tx, status == Processable).0
  {
    var mid := CheckWithRoom(s, c, content, tx);
    t := CommitWithRoom(mid, c, content, tx, status);
  }

  lemma CheckWithRoom(s: PassSystem, c: PoolConfig, content: bytes -> Tx, tx: Tx) returns (t: PassSystem)
    requires PassReachable(s, c, content) && c.maxTransactions >= 1 && c.maxTransactionsPerAccount >= 1
    requires |s.system.pool.all| < c.maxTransactions && Admissible(s.system.pool, c, tx) && Genuine(tx, content)
    ensures PassReachable(t, c, content) && t.system.pool == s.system.pool && tx in t.system.inFlight && t.passes == s.passes
  {
    PassReachableIsSafe(s, c, content);
    SafeNeverThrows(s.system, c, content, tx);
    hide PassReachable, Reachable, Safe, Sound, Genuine, UnprocessablePairs, Valid, EvictsUnprocessable;
    assert Checks(s.system.pool, c, tx, s.system.pool, Continue);
    t := Checked(s, c, content, tx);
  }

  lemma Checked(s: PassSystem, c: PoolConfig, content: bytes -> Tx, tx: Tx) returns (t: PassSystem)
    requires PassReachable(s, c, content) && Genuine(tx, content) && AllValid(s.system.pool)
    requires Checks(s.system.pool, c, tx, s.system.pool, Continue)
    ensures PassReachable(t, c, content) && t.system.pool == s.system.pool && tx in t.system.inFlight && t.passes == s.passes
  {
    hide PassReachable, Genuine, AllValid, Checks;
    t := PassSystem(System(s.system.pool, s.system.inFlight + multiset{tx}), s.passes);
    assert PassTakes(s, c, content, Outside(CheckStep(tx, Continue)), t);
    PassStepReaches(s, c, content, Outside(CheckStep(tx, Continue)), t);
  }

  lemma CommitWithRoom(s: PassSystem, c: PoolConfig, content: bytes -> Tx, tx: Tx, status: TransactionStatus) returns (t: PassSystem)
    requires PassReachable(s, c, content) && |s.system.pool.all| < c.maxTransactions && tx in s.system.inFlight && status != Invalid
    ensures PassReachable(t, c, content) && t.passes == s.passes
    ensures t.system.pool == InsertTx(s.system.pool, c, tx, status == Processable).0
  {
    hide PassReachable, InsertTx;
    assert MakesRoom(s.system.pool, c, s.system.pool);
    hide MakesRoom;
    t := CommitAfter(s, c, content, tx, status, s.system.pool);
  }

  lemma CommitAfter(
    s: PassSystem, c: PoolConfig, content: bytes -> Tx, tx: Tx, status: TransactionStatus, room: PoolState) returns (t: PassSystem)
    requires PassReachable(s, c, content) && MakesRoom(s.system.pool, c, room) && tx in s.system.inFlight && status != Invalid
    ensures PassReachable(t, c, content) && t.passes == s.passes
    ensures t.system.pool == InsertTx(room, c, tx, status == Processable).0
  {
    hide PassReachable, InsertTx, MakesRoom;
    var (pool, added) := InsertTx(room, c, tx, status == Processable);
    assert Commits(s.system.pool, c, tx, status, pool, added);
    hide Commits;
    t := PassSystem(System(pool, s.system.inFlight - multiset{tx}), s.passes);
    assert PassTakes(s, c, content, Outside(CommitStep(tx, status, added)), t);
    PassStepReaches(s, c, content, Outside(CommitStep(tx, status, added)), t);
  }

  lemma InsertedLists(s: PoolState, c: PoolConfig, tx: Tx, processable: bool)
    ensures var t := InsertTx(s, c, tx, processable).0;
            && t.lists == s.lists[tx.sender := Add(ListAt(s, tx.sender), ListConfig(c), tx, processable).state]
            && t.all.Keys <= s.all.Keys + {tx.id}
  {
    hide Add;
  }

  lemma GrowsByOne(a: set<bytes>, b: set<bytes>, id: bytes)
    requires a <= b + {id}
    ensures |a| <= |b| + 1
  {
    SubsetSize(a, b + {id});
  }

  /** A reachable pool of one account with that list, and with ids up to `n`. */
  ghost predicate Holds(c: PoolConfig, content: bytes -> Tx, s: PassSystem, l: ListState, n: nat) {
    PassReachable(s, c, content) && PoolHolds(s.system.pool, l, n)
  }

  ghost predicate PoolHolds(s: PoolState, l: ListState, n: nat) {
    && ListAt(s, ACCOUNT) == l && s.lists.Keys <= {ACCOUNT} && (l != EMPTY ==> ACCOUNT in s.lists)
    && |s.all.Keys| <= n && forall id | id in s.all :: |id| == 1 && id[0] <= n
  }

  predicate Numbered(content: bytes -> Tx, tx: Tx, n: nat) {
    n < 256 && tx.id == [n] && tx.sender == ACCOUNT && tx.size == 1 && content(tx.id) == tx
  }

  predicate Roomy(c: PoolConfig) {
    c.maxTransactionsPerAccount >= 1 && c.minEntranceFeePriority == 0 && c.maxPayloadLength >= 1
  }

  lemma StartHolds(c: PoolConfig, content: bytes -> Tx)
    ensures Holds(c, content, PASS_START, EMPTY, 0)
  {
    PassStartIsReachable(c, content);
    hide PassReachable;
  }

  lemma NextIsAdmissible(content: bytes -> Tx, c: PoolConfig, s: PoolState, l: ListState, n: nat, tx: Tx)
    requires PoolHolds(s, l, n) && Numbered(content, tx, n + 1) && Roomy(c)
    ensures Admissible(s, c, tx) && Genuine(tx, content)
  {
  }

  lemma InsertedHolds(s: PoolState, c: PoolConfig, content: bytes -> Tx, l: ListState, n: nat, tx: Tx, processable: bool)
    requires PoolHolds(s, l, n) && Numbered(content, tx, n + 1)
    ensures PoolHolds(InsertTx(s, c, tx, processable).0, Add(l, ListConfig(c), tx, processable).state, n + 1)
  {
    hide Add, InsertTx;
    InsertedLists(s, c, tx, processable);
    GrowsByOne(InsertTx(s, c, tx, processable).0.all.Keys, s.all.Keys, tx.id);
  }

  /** The next transaction, in a pool with room for it. */
  lemma AddOne(c: PoolConfig, content: bytes -> Tx, s: PassSystem, l: ListState, n: nat, tx: Tx, status: TransactionStatus)
    returns (t: PassSystem)
    requires Holds(c, content, s, l, n) && Numbered(content, tx, n + 1) && Roomy(c) && status != Invalid && n < c.maxTransactions
    ensures Holds(c, content, t, Add(l, ListConfig(c), tx, status == Processable).state, n + 1) && t.passes == s.passes
  {
    RoomLeft(c, s.system.pool, l, n);
    hide PassReachable, Add, InsertTx, Admissible, Genuine, PoolHolds, Numbered;
    NextIsAdmissible(content, c, s.system.pool, l, n, tx);
    t := AddWithRoom(s, c, content, tx, status);
    InsertedHolds(s.system.pool, c, content, l, n, tx, status == Processable);
  }

  lemma RoomLeft(c: PoolConfig, s: PoolState, l: ListState, n: nat)
    requires PoolHolds(s, l, n) && n < c.maxTransactions
    ensures |s.all| < c.maxTransactions
  {
    assert |s.all| == |s.all.Keys|;
  }

  lemma {:induction false} AllVerify(txs: seq<Tx>, i: nat)
    requires i <= |txs|
    ensures Successes(txs, _ => Processable, i) == |txs|
    decreases |txs| - i
  {
    if i < |txs| {
      AllVerify(txs, i + 1);
    }
  }

  /** A pass that nothing interrupts, in which everything verifies. */
  lemma PassOver(c: PoolConfig, content: bytes -> Tx, s: PassSystem, a: bytes) returns (t: PassSystem)
    requires PassReachable(s, c, content) && c.maxTransactions >= 1 && c.maxTransactionsPerAccount >= 1
    requires a in s.system.pool.lists && Valid(s.system.pool.lists[a]) && PromotableNonces(s.system.pool.lists[a]) != []
    ensures PassReachable(t, c, content) && t.passes == s.passes
    ensures var l := s.system.pool.lists[a];
            t.system.pool == s.system.pool.(lists := s.system.pool.lists[a := l.(processable := Considered(l))])
  {
    hide PassReachable, Inv, Valid, PromotableNonces, Considered, Reorganize, Successes;
    t := UninterruptedPass(s, c, content, a, _ => Processable);
    var l := s.system.pool.lists[a];
    ReorganizeEffect(s.system.pool, c, content, a, _ => Processable);
    AllVerify(TxsOf(l, Considered(l)), 0);
  }

  /* ---- A promotion overtaken by a replacement ---- */

  const BEFORE: ListState := ListState(map[1 := FIRST, 2 := SECOND, 3 := THIRD], [1, 2])
  const AFTER: ListState := ListState(map[1 := FIRST, 2 := DEARER, 3 := THIRD], [1, 3])

  lemma NoncesAre(l: ListState, ns: seq<nat>)
    requires Ascending(ns) && forall n :: n in ns <==> n in l.txs
    ensures Nonces(l) == ns
  {
    EnumerateIs(ns, l.txs.Keys);
  }

  const REPLACED: ListState := ListState(map[1 := FIRST, 2 := DEARER, 3 := THIRD], [1])

  lemma BeforeIsValid()
    ensures Valid(BEFORE) && Nonces(BEFORE) == [1, 2, 3]
  {
    ThreeAscending();
    hide Ascending, Nonces;
    NoncesAre(BEFORE, [1, 2, 3]);
  }

  lemma ThreeAscending()
    ensures Ascending([1, 2, 3]) && Ascending([1, 2]) && Ascending([1, 3])
  {
  }

  lemma DearerIsLegal()
    ensures LegalAdd(BEFORE, DEARER, false)
  {
  }

  lemma TwoConsecutive(n: nat)
    ensures Consecutive([n, n + 1])
  {
  }

  lemma BeforeIsOrdered()
    ensures Lowest(BEFORE) && PromotableNonces(BEFORE) == [3] && LegalAdd(BEFORE, DEARER, false)
  {
    BeforeIsValid();
    DearerIsLegal();
    TwoConsecutive(1);
    hide Nonces, Valid, Consecutive, LegalAdd, Run;
    var ns, p: seq<nat> := [1, 2, 3], [1, 2];
    assert ns[2..] == [3] && p <= ns && BEFORE.processable == p;
    assert UnprocessableNonces(BEFORE) == [3];
    hide UnprocessableNonces;
    SingleRun(3);
  }

  lemma SingleRun(n: nat)
    ensures Run([n]) == [n]
  {
  }

  lemma Replaces()
    ensures Add(BEFORE, ListConfig(CONFIG), DEARER, false).state == REPLACED
  {
    assert [1, 2][1..] == [2] && [2][1..] == [];
    assert Below([2], 2) == [] && Below([1, 2], 2) == [1];
    hide Below, Nonces;
  }

  lemma AfterIsValid()
    ensures Valid(AFTER) && Nonces(AFTER) == [1, 2, 3]
  {
    ThreeAscending();
    hide Ascending, Nonces;
    NoncesAre(AFTER, [1, 2, 3]);
  }

  lemma AfterIsUnordered()
    ensures Valid(AFTER) && !Lowest(AFTER) && UnprocessableNonces(AFTER) == [3]
  {
    AfterIsValid();
    hide Valid, Nonces, Consecutive;
    var ns, p: seq<nat> := [1, 2, 3], [1, 3];
    assert ns[2..] == [3] && AFTER.processable == p;
    assert p[1] != ns[1];
  }

  /** What a pass reads from the list before its awaits, and what its promotion makes of the list after a replacement. */
  lemma StalePromotion()
    ensures Lowest(BEFORE) && PromotableNonces(BEFORE) == [3] && LegalAdd(BEFORE, DEARER, false)
    ensures Promote(Add(BEFORE, ListConfig(CONFIG), DEARER, false).state, [THIRD]) == AFTER
    ensures Valid(AFTER) && !Lowest(AFTER) && UnprocessableNonces(AFTER) == [3]
  {
    BeforeIsOrdered();
    Replaces();
    AfterIsUnordered();
    ReplacedPromoted();
    hide Lowest, PromotableNonces, UnprocessableNonces, Add, Promote, LegalAdd, Valid;
  }

  const PAIR: ListState := ListState(map[1 := FIRST, 2 := SECOND], [1])

  lemma PairAdded()
    ensures var cfg := ListConfig(CONFIG);
            && Add(Add(EMPTY, cfg, FIRST, true).state, cfg, SECOND, false).state == PAIR
            && Add(PAIR.(processable := [1, 2]), cfg, THIRD, false).state == BEFORE
  {
    hide Highest, Below;
    var l := ListState(map[1 := FIRST], [1]);
    assert |l.txs| == 1 && |PAIR.txs| == 2;
    assert Add(EMPTY, ListConfig(CONFIG), FIRST, true).state == l;
  }

  lemma ConsideredIs(l: ListState, ns: seq<nat>, rest: seq<nat>)
    requires Valid(l) && Ascending(l.processable + rest) && ns == l.processable + rest && forall n :: n in ns <==> n in l.txs
    ensures PromotableNonces(l) == Continuation(l.processable, rest)
    ensures Considered(l) == l.processable + Continuation(l.processable, rest)
  {
    hide Ascending, Nonces, Valid, Continuation;
    NoncesAre(l, ns);
    assert UnprocessableNonces(l) == rest;
    hide UnprocessableNonces;
  }

  lemma PairIsPromotable()
    ensures Valid(PAIR) && PromotableNonces(PAIR) == [2] && Considered(PAIR) == [1, 2] && PAIR != EMPTY
  {
    ThreeAscending();
    SingleRun(2);
    assert Valid(PAIR) && [1] + [2] == [1, 2];
    hide Ascending, Nonces, Run, Valid, PromotableNonces, Considered;
    ConsideredIs(PAIR, [1, 2], [2]);
    assert 1 in PAIR.txs;
  }

  lemma BeforeIsReachable() returns (s: PassSystem)
    ensures Holds(CONFIG, Content, s, BEFORE, 3)
  {
    PairAdded();
    PairIsPromotable();
    StartHolds(CONFIG, Content);
    SamplesNumbered();
    hide *;
    var cfg := ListConfig(CONFIG);
    var s1 := AddOne(CONFIG, Content, PASS_START, EMPTY, 0, FIRST, Processable);
    var s2 := AddOne(CONFIG, Content, s1, Add(EMPTY, cfg, FIRST, true).state, 1, SECOND, Unprocessable);
    HoldsMeans(CONFIG, Content, s2, PAIR, 2);
    var s3 := PassOver(CONFIG, Content, s2, ACCOUNT);
    HoldsAfter(CONFIG, Content, s2, PAIR, 2, s3, PAIR.(processable := [1, 2]));
    s := AddOne(CONFIG, Content, s3, PAIR.(processable := [1, 2]), 2, THIRD, Unprocessable);
  }

  /** Only the account's list has changed. */
  lemma HoldsAfter(c: PoolConfig, content: bytes -> Tx, s: PassSystem, l: ListState, n: nat, t: PassSystem, m: ListState)
    requires Holds(c, content, s, l, n) && l != EMPTY && PassReachable(t, c, content)
    requires t.system.pool == s.system.pool.(lists := s.system.pool.lists[ACCOUNT := m])
    ensures Holds(c, content, t, m, n)
  {
    hide PassReachable;
  }

  lemma SamplesNumbered()
    ensures Numbered(Content, FIRST, 1) && Numbered(Content, SECOND, 2) && Numbered(Content, THIRD, 3) && Numbered(Content, DEARER, 4)
    ensures Roomy(CONFIG) && CONFIG.maxTransactions == 10
  {
  }

  /** One more answer of a pass: processable. */
  lemma Continues(s: PassSystem, c: PoolConfig, content: bytes -> Tx, pass: Pass) returns (t: PassSystem)
    requires PassReachable(s, c, content) && pass in s.passes && pass.verified + 1 < |pass.considered|
    ensures PassReachable(t, c, content) && t.system == s.system && pass.(verified := pass.verified + 1) in t.passes
  {
    hide PassReachable;
    t := GoesOnWith(s, c, content, pass, Processable);
  }

  /** The last answer of a pass: processable. */
  lemma Finishes(s: PassSystem, c: PoolConfig, content: bytes -> Tx, pass: Pass) returns (t: PassSystem)
    requires PassReachable(s, c, content) && pass in s.passes && pass.verified + 1 == |pass.considered|
    requires pass.account in s.system.pool.lists
    ensures PassReachable(t, c, content)
    ensures t.system.pool == PromoteIn(s.system.pool, pass.account, WithIds(pass.promotable, Ids(pass.considered)))
  {
    hide PassReachable, WithIds, Ids, PromoteIn;
    var promoting := WithIds(pass.promotable, Ids(pass.considered));
    var pool := PromoteIn(s.system.pool, pass.account, promoting);
    assert pass.considered[..|pass.considered|] == pass.considered;
    assert Promotes(s.system.pool, pass.account, promoting, pool) && Removes(pool, [], pool);
    t := EndsWith(s, c, content, pass, Processable, pool);
  }

  /** What a pass over BEFORE reads. */
  lemma ReadBefore()
    ensures Valid(BEFORE) && PromotableNonces(BEFORE) != []
    ensures Read(BEFORE, ACCOUNT) == Pass(ACCOUNT, [THIRD], [FIRST, SECOND, THIRD], 0)
  {
    BeforeIsValid();
    BeforeIsOrdered();
    hide Valid, Lowest, PromotableNonces, LegalAdd, Nonces;
    assert [1, 2] + [3] == [1, 2, 3];
    assert Considered(BEFORE) == [1, 2, 3];
    hide Considered;
    TxsOfBefore();
  }

  lemma TxsOfBefore()
    ensures (forall n | n in [1, 2, 3] :: n in BEFORE.txs) && (forall n | n in [3] :: n in BEFORE.txs)
    ensures TxsOf(BEFORE, [1, 2, 3]) == [FIRST, SECOND, THIRD] && TxsOf(BEFORE, [3]) == [THIRD]
  {
  }

  lemma ThirdVerified()
    ensures WithIds([THIRD], Ids([FIRST, SECOND, THIRD])) == [THIRD]
  {
    assert Ids([FIRST, SECOND, THIRD])[2] == THIRD.id;
    hide Ids;
    assert [THIRD][1..] == [];
  }

  /** DEARER is checked, then a pass begins. */
  lemma BeginsOver(s: PassSystem) returns (t: PassSystem)
    requires Holds(CONFIG, Content, s, BEFORE, 3)
    ensures Valid(BEFORE) && Holds(CONFIG, Content, t, BEFORE, 3) && Read(BEFORE, ACCOUNT) in t.passes && DEARER in t.system.inFlight
  {
    ReadBefore();
    SamplesNumbered();
    hide PassReachable, Read, PoolHolds, PromotableNonces, Valid, Admissible, Numbered, Genuine;
    HoldsMeans(CONFIG, Content, s, BEFORE, 3);
    RoomLeft(CONFIG, s.system.pool, BEFORE, 3);
    NextIsAdmissible(Content, CONFIG, s.system.pool, BEFORE, 3, DEARER);
    var mid := CheckWithRoom(s, CONFIG, Content, DEARER);
    t := Begins(mid, CONFIG, Content, ACCOUNT);
  }

  lemma CommitsDearer(s: PassSystem) returns (t: PassSystem)
    requires Holds(CONFIG, Content, s, BEFORE, 3) && DEARER in s.system.inFlight
    ensures Holds(CONFIG, Content, t, REPLACED, 4) && t.passes == s.passes
  {
    Replaces();
    SamplesNumbered();
    RoomLeft(CONFIG, s.system.pool, BEFORE, 3);
    hide PassReachable, PoolHolds, Add, Numbered, InsertTx;
    t := CommitWithRoom(s, CONFIG, Content, DEARER, Unprocessable);
    InsertedHolds(s.system.pool, CONFIG, Content, BEFORE, 3, DEARER, false);
  }

  lemma SameHolds(s: PassSystem, t: PassSystem, l: ListState, n: nat)
    requires Holds(CONFIG, Content, s, l, n) && PassReachable(t, CONFIG, Content) && t.system == s.system
    ensures Holds(CONFIG, Content, t, l, n)
  {
    hide PassReachable, PoolHolds;
  }

  lemma ReplacedPromoted()
    ensures Promote(REPLACED, [THIRD]) == AFTER && REPLACED != EMPTY
  {
    ThreeAscending();
    hide Promote, Ascending;
    PromotedIs(REPLACED, THIRD, [1, 3]);
    assert 1 in REPLACED.txs;
  }

  /** The pass goes on with what it has read, and promotes THIRD. */
  lemma EndsOver(s: PassSystem) returns (t: PassSystem)
    requires Holds(CONFIG, Content, s, REPLACED, 4) && Pass(ACCOUNT, [THIRD], [FIRST, SECOND, THIRD], 1) in s.passes
    ensures Holds(CONFIG, Content, t, AFTER, 4)
  {
    ThirdVerified();
    ReplacedPromoted();
    HoldsMeans(CONFIG, Content, s, REPLACED, 4);
    hide PassReachable, Promote, Holds, WithIds, Ids, Read, Valid, PromotableNonces, StillThere;
    var pass := Pass(ACCOUNT, [THIRD], [FIRST, SECOND, THIRD], 1);
    var mid := Continues(s, CONFIG, Content, pass);
    t := Finishes(mid, CONFIG, Content, pass.(verified := 2));
    HoldsAfter(CONFIG, Content, s, REPLACED, 4, t, AFTER);
  }

  /**
   A run from the empty pool in which a commit falls between two answers of one reorganisation pass: the pass has read a list
   with processable nonces 1 and 2 and promotable nonce 3, the commit replaces nonce 2, and at the end nonces 1 and 3 are
   processable, with an unprocessable nonce 2 between them.
   */
  lemma StalePromotionIsReachable() returns (begun: PassSystem, replaced: PassSystem, t: PassSystem)
    ensures Valid(BEFORE) && Holds(CONFIG, Content, begun, BEFORE, 3) && Read(BEFORE, ACCOUNT) in begun.passes
    ensures Holds(CONFIG, Content, replaced, REPLACED, 4) && Read(BEFORE, ACCOUNT).(verified := 1) in replaced.passes
    ensures Holds(CONFIG, Content, t, AFTER, 4) && !AllLowest(t.system.pool)
  {
    var s := BeforeIsReachable();
    begun := BeginsOver(s);
    ReadBefore();
    AfterIsUnordered();
    hide PassReachable, Lowest, UnprocessableNonces, Valid, Holds, Read, WithIds, Ids, PromotableNonces;
    var mid := Continues(begun, CONFIG, Content, Read(BEFORE, ACCOUNT));
    HoldsMeans(CONFIG, Content, begun, BEFORE, 3);
    SameHolds(begun, mid, BEFORE, 3);
    replaced := CommitsDearer(mid);
    t := EndsOver(replaced);
    HoldsMeans(CONFIG, Content, t, AFTER, 4);
    assert t.system.pool.lists[ACCOUNT] == AFTER;
  }

  /**
   There _evictUnprocessable takes the processable transaction with nonce 3 and passes over the unprocessable one with
   nonce 2, although that has a lower priority.
   */
  lemma ProcessableIsEvicted() returns (s: PassSystem)
    ensures PassReachable(s, CONFIG, Content) && LeastUnprocessable(s.system.pool, THIRD)
    ensures THIRD.nonce in ProcessableOf(s.system.pool, ACCOUNT)
    ensures NotProcessable(s.system.pool, DEARER) && Priority(DEARER) < Priority(THIRD)
  {
    var _, _, t := StalePromotionIsReachable();
    s := t;
    HoldsMeans(CONFIG, Content, s, AFTER, 4);
    PassReachableIsSafe(s, CONFIG, Content);
    OnlyThird(s.system.pool);
    ThirdIsLeast(s.system.pool);
    DearerIsPooled(s.system);
    SamplePriorities();
    hide PassReachable, Reachable, Safe, Sound, LeastUnprocessable, NotProcessable, Priority, Holds;
    assert THIRD.nonce in AFTER.processable by { assert AFTER.processable[1] == THIRD.nonce; }
  }

  lemma HoldsMeans(c: PoolConfig, content: bytes -> Tx, s: PassSystem, l: ListState, n: nat)
    requires Holds(c, content, s, l, n) && l != EMPTY
    ensures PassReachable(s, c, content) && s.system.pool.lists == map[ACCOUNT := l]
  {
    hide PassReachable;
  }

  lemma SamplePriorities()
    ensures Priority(DEARER) < Priority(THIRD)
  {
  }

  lemma OnlyThird(s: PoolState)
    requires s.lists.Keys <= {ACCOUNT} && ACCOUNT in s.lists && s.lists[ACCOUNT] == AFTER
    ensures forall tx :: IsUnprocessable(s, tx) <==> tx == THIRD
  {
    AfterIsUnordered();
    hide Valid, Lowest, UnprocessableNonces;
  }

  lemma InListIsPooled(s: PoolState, c: PoolConfig, a: bytes, n: nat)
    requires Consistent(s, c) && a in s.lists && n in s.lists[a].txs
    ensures s.lists[a].txs[n].id in s.all && s.all[s.lists[a].txs[n].id] == s.lists[a].txs[n]
  {
    hide Valid, Indexed;
    assert ListKept(s, c, a);
    hide Consistent;
    assert Filed(s, a, n);
  }

  lemma DearerIsUnprocessable()
    ensures 2 in AFTER.txs && AFTER.txs[2] == DEARER && 2 !in AFTER.processable
  {
    var p: seq<nat> := [1, 3];
    assert AFTER.processable == p;
  }

  lemma DearerIsPooled(s: System)
    requires Safe(s, CONFIG, Content) && ACCOUNT in s.pool.lists && s.pool.lists[ACCOUNT] == AFTER
    ensures NotProcessable(s.pool, DEARER)
  {
    hide Safe, Inv, Consistent;
    SafeIsInv(s, CONFIG, Content);
    InvIsConsistent(s.pool, CONFIG, Content);
    DearerIsUnprocessable();
    InListIsPooled(s.pool, CONFIG, ACCOUNT, 2);
  }

  lemma ThirdIsLeast(s: PoolState)
    requires forall tx :: IsUnprocessable(s, tx) <==> tx == THIRD
    ensures LeastUnprocessable(s, THIRD)
  {
    hide IsUnprocessable, Priority;
  }

  lemma PromotedIs(l: ListState, tx: Tx, q: seq<nat>)
    requires StillThere(l, [tx]) && Ascending(q) && forall n :: n in q <==> n in l.processable || n == tx.nonce
    ensures Promote(l, [tx]) == l.(processable := q)
  {
    assert NoncesOf([tx]) == {tx.nonce} by { assert [tx][0].nonce == tx.nonce; }
    hide Ascending, NoncesOf, Promote;
    PromotedAre(l, [tx], q);
  }

  lemma PromotedAre(l: ListState, txs: seq<Tx>, q: seq<nat>)
    requires StillThere(l, txs) && Ascending(q) && forall n :: n in q <==> n in l.processable || n in NoncesOf(txs)
    ensures Promote(l, txs) == l.(processable := q)
  {
    hide Enumerate;
    EnumerateIs(q, (set n | n in l.processable) + NoncesOf(txs));
  }

  /* ---- A lower nonce arriving late ---- */

  const HIGH: Tx := Tx([1], ACCOUNT, 5, 1, 1)
  const LOW: Tx := Tx([2], ACCOUNT, 3, 1, 1)
  const PASSED_OVER: ListState := ListState(map[5 := HIGH, 3 := LOW], [5])

  function HighLow(id: bytes): Tx {
    if id == [1] then HIGH else LOW
  }

  lemma HighThenLow()
    ensures Add(Add(EMPTY, ListConfig(CONFIG), HIGH, true).state, ListConfig(CONFIG), LOW, true).state == PASSED_OVER
    ensures Numbered(HighLow, HIGH, 1) && Numbered(HighLow, LOW, 2)
  {
    hide Highest, Below;
    var l := ListState(map[5 := HIGH], [5]);
    assert |l.txs| == 1;
    assert Add(EMPTY, ListConfig(CONFIG), HIGH, true).state == l;
  }

  lemma PassedOverIsUnordered()
    ensures !Lowest(PASSED_OVER)
  {
    assert 3 in PASSED_OVER.txs;
    if Lowest(PASSED_OVER) {
      LowestIsLeast(PASSED_OVER);
      assert false;
    }
  }

  /** The verifier may call two nonces processable in turn, when the account goes back from 5 to 3: the flag of 3 is ignored. */
  lemma LowNonceIsPassedOver() returns (s: PassSystem)
    ensures PassReachable(s, CONFIG, HighLow) && ListAt(s.system.pool, ACCOUNT) == PASSED_OVER && !AllLowest(s.system.pool)
  {
    HighThenLow();
    StartHolds(CONFIG, HighLow);
    SamplesNumbered();
    PassedOverIsUnordered();
    hide PassReachable, Add, Numbered, Lowest, Holds;
    var s1 := AddOne(CONFIG, HighLow, PASS_START, EMPTY, 0, HIGH, Processable);
    s := AddOne(CONFIG, HighLow, s1, Add(EMPTY, ListConfig(CONFIG), HIGH, true).state, 1, LOW, Processable);
    HoldsMeans(CONFIG, HighLow, s, PASSED_OVER, 2);
    assert s.system.pool.lists[ACCOUNT] == PASSED_OVER;
  }

  /* ---- A queue entry that outlives its transaction ---- */

  const SMALL: PoolConfig := PoolConfig(2, 10, 0, 1, 100)
  const CHEAP: Tx := Tx([1], ACCOUNT, 1, 1, 1)
  const RAISED: Tx := Tx([2], ACCOUNT, 1, 9, 1)
  const NEXT: Tx := Tx([3], ACCOUNT, 2, 9, 1)
  const LATE: Tx := Tx([4], [1], 0, 5, 1)

  function SmallContent(id: bytes): Tx {
    if id == [1] then CHEAP else if id == [2] then RAISED else if id == [3] then NEXT else LATE
  }

  const ONE: PoolState := PoolState(map[[1] := CHEAP], map[ACCOUNT := ListState(map[1 := CHEAP], [1])], multiset{Entry(CHEAP)})

  const TWO: PoolState :=
    PoolState(map[[2] := RAISED], map[ACCOUNT := ListState(map[1 := RAISED], [])], multiset{Entry(CHEAP), Entry(RAISED)})

  const FULL: PoolState :=
    PoolState(map[[2] := RAISED, [3] := NEXT], map[ACCOUNT := ListState(map[1 := RAISED, 2 := NEXT], [])],
              multiset{Entry(CHEAP), Entry(RAISED), Entry(NEXT)})

  const READY: PoolState := FULL.(lists := map[ACCOUNT := ListState(map[1 := RAISED, 2 := NEXT], [1, 2])])

  lemma InsertCheap()
    ensures InsertTx(EMPTY_POOL, SMALL, CHEAP, true).0 == ONE
  {
    hide Highest, Entry;
    assert Add(EMPTY, ListConfig(SMALL), CHEAP, true).state == ListState(map[1 := CHEAP], [1]);
  }

  lemma InsertRaised()
    ensures InsertTx(ONE, SMALL, RAISED, false).0 == TWO
  {
    assert [1][1..] == [] && Below([1], 1) == [];
    hide Highest, Entry, Below;
    var r := Add(ListState(map[1 := CHEAP], [1]), ListConfig(SMALL), RAISED, false);
    assert r == AddResult(ListState(map[1 := RAISED], []), true, Some([1]));
    assert map[[1] := CHEAP] - {[1]} == map[];
  }

  lemma InsertNext()
    ensures InsertTx(TWO, SMALL, NEXT, false).0 == FULL
  {
    hide Highest, Entry, Below;
    var l := ListState(map[1 := RAISED], []);
    assert |l.txs| == 1;
    assert Add(l, ListConfig(SMALL), NEXT, false) == AddResult(ListState(map[1 := RAISED, 2 := NEXT], []), true, None);
  }

  const BOTH: ListState := ListState(map[1 := RAISED, 2 := NEXT], [])

  /** In FULL both are promotable. */
  lemma BothPromotable()
    ensures Valid(BOTH) && PromotableNonces(BOTH) != [] && Considered(BOTH) == [1, 2]
  {
    BothValid();
    RunOfTwo();
    hide Ascending, Valid, Run, PromotableNonces, Considered;
    ConsideredIs(BOTH, [1, 2], [1, 2]);
  }

  lemma BothValid()
    ensures Valid(BOTH) && Ascending([1, 2]) && BOTH.processable + [1, 2] == [1, 2] && Ascending(BOTH.processable + [1, 2])
    ensures forall n :: n in [1, 2] <==> n in BOTH.txs
  {
    TwoAscending();
  }

  lemma RunOfTwo()
    ensures Run([1, 2]) == [1, 2]
  {
    assert [1, 2][1..] == [2];
  }

  lemma TwoAscending()
    ensures Ascending([1, 2])
  {
  }

  lemma SmallSamples()
    ensures Admissible(EMPTY_POOL, SMALL, CHEAP) && Admissible(ONE, SMALL, RAISED) && Admissible(TWO, SMALL, NEXT)
    ensures Genuine(CHEAP, SmallContent) && Genuine(RAISED, SmallContent) && Genuine(NEXT, SmallContent)
    ensures |EMPTY_POOL.all| < 2 && |ONE.all| < 2 && |TWO.all| < 2
  {
  }

  lemma ReadyIsReachable() returns (s: PassSystem)
    ensures PassReachable(s, SMALL, SmallContent) && s.system.pool == READY
  {
    PassStartIsReachable(SMALL, SmallContent);
    SmallSamples();
    InsertCheap();
    InsertRaised();
    InsertNext();
    BothPromotable();
    hide PassReachable, InsertTx, Admissible, Genuine, Valid, PromotableNonces, Considered;
    var s1 := AddWithRoom(PASS_START, SMALL, SmallContent, CHEAP, Processable);
    var s2 := AddWithRoom(s1, SMALL, SmallContent, RAISED, Unprocessable);
    var s3 := AddWithRoom(s2, SMALL, SmallContent, NEXT, Unprocessable);
    assert s3.system.pool.lists[ACCOUNT] == BOTH;
    s := PassOver(SMALL, SmallContent, s3, ACCOUNT);
    assert s.system.pool.lists == READY.lists;
  }

  lemma ReadyPriorities()
    ensures |READY.all| == SMALL.maxTransactions && Admissible(READY, SMALL, LATE)
    ensures forall id | id in READY.all :: Priority(LATE) < Priority(READY.all[id])
    ensures Entry(CHEAP) in READY.queue && Entry(CHEAP).key < Priority(LATE)
  {
    assert READY.all == map[[2] := RAISED, [3] := NEXT];
    assert READY.all.Keys == {[2], [3]};
  }

  /** NEXT is the only head, so it is what a commit evicts. */
  lemma OnlyNextIsHead()
    ensures forall tx :: IsHead(READY, tx) <==> tx == NEXT
  {
    var p: seq<nat> := [1, 2];
    assert READY.lists.Keys == {ACCOUNT} && READY.lists[ACCOUNT].processable == p && p[1] == 2;
  }

  lemma NoneIsUnprocessable()
    ensures forall tx :: !IsUnprocessable(READY, tx)
  {
    AllProcessable();
    hide Valid, Nonces;
  }

  lemma NextMakesRoom()
    ensures CanRemove(READY, NEXT) && MakesRoom(READY, SMALL, RemoveTx(READY, NEXT))
    ensures RemoveTx(READY, NEXT).all == map[[2] := RAISED]
  {
    OnlyNextIsHead();
    NoneIsUnprocessable();
    ReadyPriorities();
    assert READY.all - {[3]} == map[[2] := RAISED];
    hide IsHead, IsUnprocessable, Remove, QueueOf, Priority;
    assert LeastHead(READY, NEXT) && CanRemove(READY, NEXT);
    hide LeastHead;
    assert EvictsProcessable(READY, RemoveTx(READY, NEXT), true) by { assert IsHead(READY, NEXT); }
  }

  lemma LateComesIn(room: PoolState)
    requires room.all == map[[2] := RAISED] && [1] !in room.lists
    ensures InsertTx(room, SMALL, LATE, true).0.all == map[[2] := RAISED, [4] := LATE]
  {
    hide Highest;
  }

  lemma LateSender()
    ensures CanRemove(READY, NEXT) && [1] !in RemoveTx(READY, NEXT).lists
  {
    hide Remove, QueueOf;
  }

  /**
   A reachable full pool, all of it processable, every transaction in it dearer than LATE: the check does not reject LATE,
   because the entry of a replaced transaction is still in the queue, and the commit then evicts NEXT for it.
   */
  lemma CheaperIsAdmitted() returns (s: PassSystem, t: PassSystem)
    ensures PassReachable(s, SMALL, SmallContent) && |s.system.pool.all| == SMALL.maxTransactions && AllValid(s.system.pool)
    ensures forall id | id in s.system.pool.all :: Priority(LATE) < Priority(s.system.pool.all[id])
    ensures UnprocessablePairs(s.system.pool) == {}
    ensures forall u, outcome :: Checks(s.system.pool, SMALL, LATE, u, outcome) <==> u == s.system.pool && outcome == Continue
    ensures PassReachable(t, SMALL, SmallContent)
    ensures s.system.pool.all == map[[2] := RAISED, [3] := NEXT] && t.system.pool.all == map[[2] := RAISED, [4] := LATE]
  {
    s := CheaperPasses();
    hide PassReachable, AllValid, Checks, UnprocessablePairs, Priority;
    t := LateCommitted(s);
  }

  lemma LateIsGenuine()
    ensures Genuine(LATE, SmallContent)
  {
  }

  lemma LateCommitted(s: PassSystem) returns (t: PassSystem)
    requires PassReachable(s, SMALL, SmallContent) && s.system.pool == READY && AllValid(READY)
    requires Checks(READY, SMALL, LATE, READY, Continue)
    ensures PassReachable(t, SMALL, SmallContent) && t.system.pool.all == map[[2] := RAISED, [4] := LATE]
  {
    LateIsGenuine();
    hide PassReachable, AllValid, Checks, MakesRoom, InsertTx, RemoveTx, Genuine;
    NextMakesRoom();
    LateSender();
    var room := RemoveTx(READY, NEXT);
    LateComesIn(room);
    var mid := Checked(s, SMALL, SmallContent, LATE);
    t := CommitAfter(mid, SMALL, SmallContent, LATE, Processable, room);
  }

  lemma CheaperPasses() returns (s: PassSystem)
    ensures PassReachable(s, SMALL, SmallContent) && s.system.pool == READY && |READY.all| == SMALL.maxTransactions && AllValid(READY)
    ensures forall id | id in READY.all :: Priority(LATE) < Priority(READY.all[id])
    ensures UnprocessablePairs(READY) == {}
    ensures forall u, outcome :: Checks(READY, SMALL, LATE, u, outcome) <==> u == READY && outcome == Continue
  {
    s := ReadyIsReachable();
    ReadyPriorities();
    PassReachableIsSafe(s, SMALL, SmallContent);
    SafeNeverThrows(s.system, SMALL, SmallContent, LATE);
    AllProcessable();
    NoneUnprocessable(READY);
    hide PassReachable, Reachable, Safe, Sound, Checks, UnprocessablePairs, Admissible, Valid, Priority;
    forall u, outcome
      ensures Checks(READY, SMALL, LATE, u, outcome) <==> u == READY && outcome == Continue
    {
      LowEntryAdmits(READY, SMALL, LATE, Entry(CHEAP), u, outcome);
    }
  }

  /** Where a list has as many processable nonces as transactions it has no unprocessable ones. */
  lemma NoneUnprocessable(s: PoolState)
    requires AllValid(s) && forall a | a in s.lists :: |s.lists[a].processable| == |s.lists[a].txs|
    ensures UnprocessablePairs(s) == {}
  {
    hide Enumerate, Ascending, Valid;
  }

  lemma AllProcessable()
    ensures forall a | a in READY.lists :: |READY.lists[a].processable| == |READY.lists[a].txs|
  {
    var l := ListState(map[1 := RAISED, 2 := NEXT], [1, 2]);
    assert l.txs.Keys == {1, 2};
    assert |l.txs| == 2;
  }

  /* ---- A replacement that does not pay the difference ---- */

  const STRICT: PoolConfig := PoolConfig(2, 10, 0, 10, 100)
  const OTHER: Tx := Tx([1], [1], 0, 20, 1)
  const OLD: Tx := Tx([2], ACCOUNT, 1, 9, 1)
  const NEW: Tx := Tx([3], ACCOUNT, 1, 10, 1)

  function StrictContent(id: bytes): Tx {
    if id == [1] then OTHER else if id == [2] then OLD else NEW
  }

  const ALONE: PoolState := PoolState(map[[1] := OTHER], map[[1] := ListState(map[0 := OTHER], [0])], multiset{Entry(OTHER)})

  const BOTH_IN: PoolState :=
    PoolState(map[[1] := OTHER, [2] := OLD], map[[1] := ListState(map[0 := OTHER], [0]), ACCOUNT := ListState(map[1 := OLD], [])],
              multiset{Entry(OTHER), Entry(OLD)})

  lemma InsertOther()
    ensures InsertTx(EMPTY_POOL, STRICT, OTHER, true).0 == ALONE
  {
    hide Highest, Entry;
    assert Add(EMPTY, ListConfig(STRICT), OTHER, true) == AddResult(ListState(map[0 := OTHER], [0]), true, None);
  }

  lemma InsertOld()
    ensures InsertTx(ALONE, STRICT, OLD, false).0 == BOTH_IN
  {
    hide Highest, Entry;
    assert Add(EMPTY, ListConfig(STRICT), OLD, false) == AddResult(ListState(map[1 := OLD], []), true, None);
  }

  lemma StrictSamples()
    ensures Admissible(EMPTY_POOL, STRICT, OTHER) && Admissible(ALONE, STRICT, OLD) && Admissible(BOTH_IN, STRICT, NEW)
    ensures Genuine(OTHER, StrictContent) && Genuine(OLD, StrictContent) && Genuine(NEW, StrictContent)
    ensures |EMPTY_POOL.all| < 2 && |ALONE.all| < 2 && |BOTH_IN.all| == 2
    ensures Entry(OLD) in BOTH_IN.queue && Entry(OLD).key < Priority(NEW)
  {
    assert BOTH_IN.all.Keys == {[1], [2]};
  }

  lemma OldIsValid()
    ensures Valid(ListState(map[1 := OLD], [])) && UnprocessableNonces(ListState(map[1 := OLD], [])) == [1]
    ensures Valid(ListState(map[0 := OTHER], [0])) && UnprocessableNonces(ListState(map[0 := OTHER], [0])) == []
  {
    var l, m, one, none: seq<nat> := ListState(map[1 := OLD], []), ListState(map[0 := OTHER], [0]), [1], [0];
    assert Valid(l) && Valid(m) && Ascending(one) && Ascending(none);
    hide Valid, Ascending, Nonces;
    NoncesAre(l, one);
    NoncesAre(m, none);
    assert one[0..] == one && none[1..] == [];
  }

  /** OLD is the only unprocessable transaction. */
  lemma OnlyOldGoes()
    ensures forall tx :: IsUnprocessable(BOTH_IN, tx) <==> tx == OLD
  {
    OldIsValid();
    hide Valid, UnprocessableNonces;
    assert BOTH_IN.lists.Keys == {[1], ACCOUNT};
    var one: seq<nat> := [1];
    assert one[0] == 1 && 1 in one;
  }

  lemma OldMakesRoom()
    ensures CanRemove(BOTH_IN, OLD) && MakesRoom(BOTH_IN, STRICT, RemoveTx(BOTH_IN, OLD))
    ensures ACCOUNT !in RemoveTx(BOTH_IN, OLD).lists
  {
    OnlyOldGoes();
    StrictSamples();
    OldLeavesNothing();
    hide IsUnprocessable, Remove, QueueOf, Priority, Admissible, Genuine;
    assert LeastUnprocessable(BOTH_IN, OLD) && CanRemove(BOTH_IN, OLD);
    hide LeastUnprocessable;
    assert EvictsUnprocessable(BOTH_IN, RemoveTx(BOTH_IN, OLD), true) by { assert IsUnprocessable(BOTH_IN, OLD); }
  }

  lemma OldLeavesNothing()
    ensures |Remove(ListState(map[1 := OLD], []), 1).txs| == 0
  {
    assert map[1 := OLD] - {1} == map[];
  }

  lemma NewTakesPlace(room: PoolState)
    requires ACCOUNT !in room.lists
    ensures var t := InsertTx(room, STRICT, NEW, false).0; ACCOUNT in t.lists && t.lists[ACCOUNT].txs == map[1 := NEW]
  {
    hide Highest;
  }

  /**
   A run that ends with a nonce in other hands for one more in fee, where the difference is ten: the pool was full, and the old
   holder, the cheapest unprocessable transaction, was evicted to make room for the new one.
   */
  lemma ReplacementUnpaid() returns (s: PassSystem, t: PassSystem)
    ensures PassReachable(s, STRICT, StrictContent) && s.system.pool == BOTH_IN && s.system.pool.lists[ACCOUNT].txs == map[1 := OLD]
    ensures PassReachable(t, STRICT, StrictContent) && ACCOUNT in t.system.pool.lists && t.system.pool.lists[ACCOUNT].txs == map[1 := NEW]
    ensures NEW.fee < OLD.fee + STRICT.minReplacementFeeDifference
  {
    PassStartIsReachable(STRICT, StrictContent);
    StrictSamples();
    InsertOther();
    InsertOld();
    hide PassReachable, InsertTx, Admissible, Genuine, Priority, Entry;
    var s1 := AddWithRoom(PASS_START, STRICT, StrictContent, OTHER, Processable);
    s := AddWithRoom(s1, STRICT, StrictContent, OLD, Unprocessable);
    t := NewComesIn(s);
  }

  lemma NewComesIn(s: PassSystem) returns (t: PassSystem)
    requires PassReachable(s, STRICT, StrictContent) && s.system.pool == BOTH_IN
    ensures PassReachable(t, STRICT, StrictContent) && ACCOUNT in t.system.pool.lists && t.system.pool.lists[ACCOUNT].txs == map[1 := NEW]
  {
    StrictSamples();
    hide PassReachable, AllValid, Checks, MakesRoom, InsertTx, RemoveTx, Genuine, Reachable, Safe, AllSound, Admissible, Priority, Entry;
    OldMakesRoom();
    PassReachableIsSafe(s, STRICT, StrictContent);
    SafeNeverThrows(s.system, STRICT, StrictContent, NEW);
    EachValid(BOTH_IN);
    LowEntryAdmits(BOTH_IN, STRICT, NEW, Entry(OLD), BOTH_IN, Continue);
    var mid := Checked(s, STRICT, StrictContent, NEW);
    var room := RemoveTx(BOTH_IN, OLD);
    t := CommitAfter(mid, STRICT, StrictContent, NEW, Unprocessable, room);
    NewTakesPlace(room);
  }

  lemma EachValid(s: PoolState)
    requires AllValid(s)
    ensures forall a | a in s.lists :: Valid(s.lists[a])
  {
    hide Valid;
  }
}
