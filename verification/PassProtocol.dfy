/**
 Passes of _reorganize as the code makes them (elements/transaction-pool/src/transaction_pool.ts:375-449): the list is read
 once, the verifier is awaited for every transaction, and promotion and removal follow the last answer without
 interruption. Any other step of the pool may fall between two answers.
 */
module PassProtocol {
  import opened Wrappers
  import opened NonceList
  import opened PoolModel
  import opened PoolProtocol
  import opened Reorganization

  /** A pass that waits for the verifier: what it has read, and how many of it have verified. */
  datatype Pass = Pass(account: bytes, promotable: seq<Tx>, considered: seq<Tx>, verified: nat)

  datatype PassSystem = PassSystem(system: System, passes: multiset<Pass>)

  const PASS_START: PassSystem := PassSystem(START, multiset{})

  datatype PassStep =
    | Outside(step: Step)
    | Begin(account: bytes)
    | Answer(pass: Pass, status: TransactionStatus)

  ghost function Read(l: ListState, a: bytes): Pass
    requires Valid(l)
  {
    Pass(a, TxsOf(l, PromotableNonces(l)), TxsOf(l, Considered(l)), 0)
  }

  predicate BreaksOff(considered: seq<Tx>, i: nat, status: TransactionStatus)
    requires i < |considered|
  {
    status == Invalid || (status == Unprocessable && (i == 0 || considered[i - 1].nonce + 1 != considered[i].nonce))
  }

  /** The promotion happens on the list that was read: if that has been dropped, or an id buffer is a new one, nothing changes. */
  ghost predicate Promotes(s: PoolState, a: bytes, txs: seq<Tx>, t: PoolState) {
    t == s || (a in s.lists && t == PromoteIn(s, a, txs))
  }

  /** One removal after the other. */
  ghost predicate Removes(s: PoolState, txs: seq<Tx>, t: PoolState)
    decreases |txs|
  {
    if txs == [] then t == s else CanRemove(s, txs[0]) && Removes(RemoveTx(s, txs[0]), txs[1..], t)
  }

  ghost predicate Ends(s: PoolState, a: bytes, promoting: seq<Tx>, removing: seq<Tx>, t: PoolState) {
    exists mid :: Promotes(s, a, promoting, mid) && Removes(mid, removing, t)
  }

  /** What an answer that ends a pass promotes, and what it removes. */
  function Verified(pass: Pass, status: TransactionStatus): seq<Tx>
    requires pass.verified < |pass.considered|
  {
    var n := if BreaksOff(pass.considered, pass.verified, status) then pass.verified else pass.verified + 1;
    WithIds(pass.promotable, Ids(pass.considered[..n]))
  }

  function Rejected(pass: Pass, status: TransactionStatus): seq<Tx>
    requires pass.verified < |pass.considered|
  {
    if status == Invalid then FromNonce(pass.considered, pass.considered[pass.verified].nonce) else []
  }

  predicate IsLast(pass: Pass, status: TransactionStatus)
    requires pass.verified < |pass.considered|
  {
    BreaksOff(pass.considered, pass.verified, status) || pass.verified + 1 == |pass.considered|
  }

  ghost predicate PassTakes(s: PassSystem, c: PoolConfig, content: bytes -> Tx, step: PassStep, t: PassSystem) {
    match step
    case Outside(other) =>
      !other.PromoteStep? && t.passes == s.passes && Takes(s.system, c, content, other, t.system)
    case Begin(a) =>
      && t.system == s.system && a in s.system.pool.lists && Valid(s.system.pool.lists[a])
      && PromotableNonces(s.system.pool.lists[a]) != []
      && t.passes == s.passes + multiset{Read(s.system.pool.lists[a], a)}
    case Answer(pass, status) =>
      && pass in s.passes && pass.verified < |pass.considered|
      && if IsLast(pass, status) then
           && t.passes == s.passes - multiset{pass} && t.system.inFlight == s.system.inFlight
           && Ends(s.system.pool, pass.account, Verified(pass, status), Rejected(pass, status), t.system.pool)
         else
           t.system == s.system && t.passes == s.passes - multiset{pass} + multiset{pass.(verified := pass.verified + 1)}
  }

  /* ---- Every pass is made of promotion and removal steps ---- */

  /** What a pass has read are transactions with ascending nonces, and it waits for one of them. */
  ghost predicate Sound(pass: Pass, content: bytes -> Tx) {
    && EachGenuine(pass.considered, content) && pass.verified < |pass.considered|
    && forall i, j | 0 <= i < j < |pass.considered| :: pass.considered[i].nonce < pass.considered[j].nonce
  }

  ghost predicate AllSound(s: PassSystem, content: bytes -> Tx) {
    forall pass | pass in s.passes :: Sound(pass, content)
  }

  lemma ReadIsSound(s: PoolState, c: PoolConfig, content: bytes -> Tx, a: bytes)
    requires Inv(s, c, content) && a in s.lists && Valid(s.lists[a]) && PromotableNonces(s.lists[a]) != []
    ensures Sound(Read(s.lists[a], a), content)
  {
    hide Inv, Genuine, PromotableNonces;
    var l := s.lists[a];
    ListedGenuine(s, c, content, a);
    ConsideredAscends(l);
    ListedUnder(l, Considered(l));
  }

  lemma {:induction false} RemovesReaches(s: System, c: PoolConfig, content: bytes -> Tx, txs: seq<Tx>, t: System)
    requires Reachable(s, c, content) && EachGenuine(txs, content)
    requires t.inFlight == s.inFlight && Removes(s.pool, txs, t.pool)
    ensures Reachable(t, c, content)
    decreases |txs|
  {
    hide Reachable, RemoveTx, Genuine;
    if txs == [] {
      assert t == s;
    } else {
      var mid := System(RemoveTx(s.pool, txs[0]), s.inFlight);
      EachGenuineRest(txs, content);
      assert Takes(s, c, content, RemoveStep(txs[0]), mid);
      StepReaches(s, c, content, RemoveStep(txs[0]), mid);
      RemovesReaches(mid, c, content, txs[1..], t);
    }
  }

  lemma EndReaches(
    s: System, c: PoolConfig, content: bytes -> Tx, a: bytes, promoting: seq<Tx>, removing: seq<Tx>, t: System)
    requires Reachable(s, c, content) && EachGenuine(removing, content)
    requires t.inFlight == s.inFlight && Ends(s.pool, a, promoting, removing, t.pool)
    ensures Reachable(t, c, content)
  {
    hide Reachable, Removes, EachGenuine;
    var pool :| Promotes(s.pool, a, promoting, pool) && Removes(pool, removing, t.pool);
    var mid := System(pool, s.inFlight);
    assert Takes(s, c, content, PromoteStep(a, promoting), mid);
    StepReaches(s, c, content, PromoteStep(a, promoting), mid);
    RemovesReaches(mid, c, content, removing, t);
  }

  lemma RejectedGenuine(pass: Pass, status: TransactionStatus, content: bytes -> Tx)
    requires Sound(pass, content)
    ensures EachGenuine(Rejected(pass, status), content)
  {
    hide Genuine, FromNonce;
    FromNonceGenuine(pass.considered, pass.considered[pass.verified].nonce, content);
  }

  lemma StepRefines(s: PassSystem, c: PoolConfig, content: bytes -> Tx, step: PassStep, t: PassSystem)
    requires Reachable(s.system, c, content) && AllSound(s, content) && PassTakes(s, c, content, step, t)
    requires c.maxTransactions >= 1 && c.maxTransactionsPerAccount >= 1
    ensures Reachable(t.system, c, content) && AllSound(t, content)
  {
    hide Reachable, Sound, Takes, Ends, PromotableNonces, Valid, Read, Verified, Rejected, IsLast;
    match step
    case Outside(other) => StepReaches(s.system, c, content, other, t.system);
    case Begin(a) =>
      ReachableIsInv(s.system, c, content);
      ReadIsSound(s.system.pool, c, content, a);
    case Answer(pass, status) =>
      if IsLast(pass, status) {
        RejectedGenuine(pass, status, content);
        EndReaches(s.system, c, content, pass.account, Verified(pass, status), Rejected(pass, status), t.system);
      } else {
        OneMoreIsSound(pass, status, content);
      }
  }

  lemma ReachableIsInv(s: System, c: PoolConfig, content: bytes -> Tx)
    requires Reachable(s, c, content) && c.maxTransactions >= 1 && c.maxTransactionsPerAccount >= 1
    ensures Inv(s.pool, c, content)
  {
    hide Reachable, Safe;
    ReachableIsSafe(s, c, content);
    SafeIsInv(s, c, content);
  }

  lemma OneMoreIsSound(pass: Pass, status: TransactionStatus, content: bytes -> Tx)
    requires Sound(pass, content) && !IsLast(pass, status)
    ensures Sound(pass.(verified := pass.verified + 1), content)
  {
    hide EachGenuine;
  }

  ghost predicate IsPassRun(states: seq<PassSystem>, steps: seq<PassStep>, c: PoolConfig, content: bytes -> Tx) {
    && |states| == |steps| + 1 && states[0] == PASS_START
    && forall i | 0 <= i < |steps| :: PassTakes(states[i], c, content, steps[i], states[i + 1])
  }

  /**
   Runs with interruptible passes refine the runs of checks, commits, removals and promotions: whatever is shown of all
   reachable states of those holds here.
   */
  lemma {:induction false} PassRunsRefine(states: seq<PassSystem>, steps: seq<PassStep>, c: PoolConfig, content: bytes -> Tx, i: nat)
    requires IsPassRun(states, steps, c, content) && i < |states|
    requires c.maxTransactions >= 1 && c.maxTransactionsPerAccount >= 1
    ensures Reachable(states[i].system, c, content) && Safe(states[i].system, c, content) && AllSound(states[i], content)
    decreases i
  {
    hide PassTakes, Reachable, Sound, Safe;
    if i == 0 {
      StartIsReachable(c, content);
    } else {
      PassRunsRefine(states, steps, c, content, i - 1);
      StepRefines(states[i - 1], c, content, steps[i - 1], states[i]);
    }
    ReachableIsSafe(states[i].system, c, content);
  }

  /* ---- Reachable states ---- */

  ghost predicate PassReachable(s: PassSystem, c: PoolConfig, content: bytes -> Tx) {
    exists states, steps :: IsPassRun(states, steps, c, content) && states[|steps|] == s
  }

  lemma PassStartIsReachable(c: PoolConfig, content: bytes -> Tx)
    ensures PassReachable(PASS_START, c, content)
  {
    var states, steps: seq<PassStep> := [PASS_START], [];
    assert IsPassRun(states, steps, c, content) && states[|steps|] == PASS_START;
  }

  lemma PassStepReaches(s: PassSystem, c: PoolConfig, content: bytes -> Tx, step: PassStep, t: PassSystem)
    requires PassReachable(s, c, content) && PassTakes(s, c, content, step, t)
    ensures PassReachable(t, c, content)
  {
    hide PassTakes;
    var states, steps :| IsPassRun(states, steps, c, content) && states[|steps|] == s;
    var longer, more := states + [t], steps + [step];
    forall i | 0 <= i < |more|
      ensures PassTakes(longer[i], c, content, more[i], longer[i + 1])
    {
      if i < |steps| {
        assert PassTakes(states[i], c, content, steps[i], states[i + 1]);
      }
    }
    assert IsPassRun(longer, more, c, content) && longer[|more|] == t;
  }

  lemma PassReachableIsSafe(s: PassSystem, c: PoolConfig, content: bytes -> Tx)
    requires PassReachable(s, c, content) && c.maxTransactions >= 1 && c.maxTransactionsPerAccount >= 1
    ensures Reachable(s.system, c, content) && Safe(s.system, c, content) && AllSound(s, content)
  {
    hide PassTakes, Reachable, Safe, Sound;
    var states, steps :| IsPassRun(states, steps, c, content) && states[|steps|] == s;
    PassRunsRefine(states, steps, c, content, |steps|);
  }

  lemma Begins(s: PassSystem, c: PoolConfig, content: bytes -> Tx, a: bytes) returns (t: PassSystem)
    requires PassReachable(s, c, content) && a in s.system.pool.lists && Valid(s.system.pool.lists[a])
    requires PromotableNonces(s.system.pool.lists[a]) != []
    ensures PassReachable(t, c, content)
    ensures t.system == s.system && t.passes == s.passes + multiset{Read(s.system.pool.lists[a], a)}
  {
    hide PassReachable, Valid, PromotableNonces, Read;
    t := PassSystem(s.system, s.passes + multiset{Read(s.system.pool.lists[a], a)});
    assert PassTakes(s, c, content, Begin(a), t);
    PassStepReaches(s, c, content, Begin(a), t);
  }

  lemma GoesOnWith(s: PassSystem, c: PoolConfig, content: bytes -> Tx, pass: Pass, status: TransactionStatus) returns (t: PassSystem)
    requires PassReachable(s, c, content) && pass in s.passes && pass.verified < |pass.considered| && !IsLast(pass, status)
    ensures PassReachable(t, c, content)
    ensures t.system == s.system && t.passes == s.passes - multiset{pass} + multiset{pass.(verified := pass.verified + 1)}
  {
    hide PassReachable, IsLast, Ends;
    t := PassSystem(s.system, s.passes - multiset{pass} + multiset{pass.(verified := pass.verified + 1)});
    assert PassTakes(s, c, content, Answer(pass, status), t);
    PassStepReaches(s, c, content, Answer(pass, status), t);
  }

  lemma EndsWith(s: PassSystem, c: PoolConfig, content: bytes -> Tx, pass: Pass, status: TransactionStatus, pool: PoolState)
    returns (t: PassSystem)
    requires PassReachable(s, c, content) && pass in s.passes && pass.verified < |pass.considered| && IsLast(pass, status)
    requires Ends(s.system.pool, pass.account, Verified(pass, status), Rejected(pass, status), pool)
    ensures PassReachable(t, c, content)
    ensures t.system == System(pool, s.system.inFlight) && t.passes == s.passes - multiset{pass}
  {
    hide PassReachable, IsLast, Ends, Verified, Rejected;
    t := PassSystem(System(pool, s.system.inFlight), s.passes - multiset{pass});
    assert PassTakes(s, c, content, Answer(pass, status), t);
    PassStepReaches(s, c, content, Answer(pass, status), t);
  }

  /* ---- What the end of a pass does, whatever happened since it began ---- */

  /** Removing transactions one after the other takes exactly their ids out of the pool. */
  lemma {:induction false} RemovesExactly(s: PoolState, c: PoolConfig, content: bytes -> Tx, txs: seq<Tx>, t: PoolState)
    requires Inv(s, c, content) && EachGenuine(txs, content) && Removes(s, txs, t)
    ensures Inv(t, c, content) && t.all == s.all - (set tx | tx in txs :: tx.id)
    decreases |txs|
  {
    hide Inv, Genuine;
    if txs != [] {
      var mid := RemoveTx(s, txs[0]);
      assert mid.all == s.all - {txs[0].id};
      hide RemoveTx;
      EachGenuineRest(txs, content);
      RemoveKeeps(s, c, content, txs[0]);
      RemovesExactly(mid, c, content, txs[1..], t);
      IdsCons(txs);
    }
  }

  lemma IdsCons(txs: seq<Tx>)
    requires txs != []
    ensures (set tx | tx in txs :: tx.id) == {txs[0].id} + (set tx | tx in txs[1..] :: tx.id)
  {
    assert txs == [txs[0]] + txs[1..];
  }

  /**
   Whatever was committed and removed since the pass read its list: if the transaction it waits for turns out invalid, it and
   all later ones that were read leave the pool, and nothing else does; any other answer leaves the pool's transactions alone.
   */
  lemma AnswerEffect(s: PassSystem, c: PoolConfig, content: bytes -> Tx, pass: Pass, status: TransactionStatus, t: PassSystem)
    requires Safe(s.system, c, content) && AllSound(s, content) && PassTakes(s, c, content, Answer(pass, status), t)
    ensures pass.verified < |pass.considered|
    ensures t.system.pool.all ==
              if status == Invalid then s.system.pool.all - (set tx | tx in pass.considered[pass.verified..] :: tx.id)
              else s.system.pool.all
  {
    hide Safe, Sound, Verified, Inv, Promotes;
    assert Sound(pass, content);
    if IsLast(pass, status) {
      var before, after := s.system.pool, t.system.pool;
      var mid :| Promotes(before, pass.account, Verified(pass, status), mid) && Removes(mid, Rejected(pass, status), after);
      SafeIsInv(s.system, c, content);
      PromotesKeeps(before, c, content, pass.account, Verified(pass, status), mid);
      RejectedGenuine(pass, status, content);
      RemovesExactly(mid, c, content, Rejected(pass, status), after);
      if status == Invalid {
        RejectedIsRest(pass, content);
      }
    }
  }

  lemma PromotesKeeps(s: PoolState, c: PoolConfig, content: bytes -> Tx, a: bytes, txs: seq<Tx>, t: PoolState)
    requires Inv(s, c, content) && Promotes(s, a, txs, t)
    ensures Inv(t, c, content) && t.all == s.all
  {
    hide Inv;
    if t != s {
      PromoteKeeps(s, c, content, a, txs);
    }
  }

  lemma RejectedIsRest(pass: Pass, content: bytes -> Tx)
    requires Sound(pass, content)
    ensures Rejected(pass, Invalid) == pass.considered[pass.verified..]
  {
    hide EachGenuine, FromNonce;
    FromNonceSuffix(pass.considered, pass.considered[pass.verified].nonce, pass.verified);
  }

  /* ---- Without interruption a pass is Reorganize ---- */

  lemma {:induction false} RemovesEach(s: PoolState, c: PoolConfig, content: bytes -> Tx, txs: seq<Tx>)
    requires Inv(s, c, content) && EachGenuine(txs, content)
    ensures Removes(s, txs, RemoveEach(s, c, content, txs))
    decreases |txs|
  {
    hide Inv, Genuine, RemoveTx;
    if txs != [] {
      EachGenuineRest(txs, content);
      RemoveKeeps(s, c, content, txs[0]);
      RemovesEach(RemoveTx(s, txs[0]), c, content, txs[1..]);
    }
  }

  lemma EndIsReorganize(s: PoolState, c: PoolConfig, content: bytes -> Tx, a: bytes, verify: Tx -> TransactionStatus)
    requires Inv(s, c, content) && a in s.lists && Valid(s.lists[a]) && PromotableNonces(s.lists[a]) != []
    ensures var l := s.lists[a];
            var txs := TxsOf(l, Considered(l));
            var k := Successes(txs, verify, 0);
            var rejected := if k < |txs| && verify(txs[k]) == Invalid then FromNonce(txs, txs[k].nonce) else [];
            Ends(s, a, Promoting(l, k), rejected, Reorganize(s, c, content, a, verify))
  {
    hide Inv, Genuine, Valid, Considered, PromotableNonces, PromoteIn, RemoveEach, Promoting, Successes, Reorganize, FromNonce, EachGenuine;
    ReorganizeSteps(s, c, content, a, verify);
    var l := s.lists[a];
    var txs := TxsOf(l, Considered(l));
    var k := Successes(txs, verify, 0);
    var promoted := PromoteIn(s, a, Promoting(l, k));
    assert Promotes(s, a, Promoting(l, k), promoted);
    if k < |txs| && verify(txs[k]) == Invalid {
      RemovesEach(promoted, c, content, FromNonce(txs, txs[k].nonce));
    } else {
      assert Removes(promoted, [], promoted);
    }
  }

  /** The answers of `verify`, one after the other, with nothing in between. */
  lemma {:induction false} GoesOn(
    s: PassSystem, c: PoolConfig, content: bytes -> Tx, a: bytes, verify: Tx -> TransactionStatus, i: nat) returns (t: PassSystem)
    requires PassReachable(s, c, content) && Inv(s.system.pool, c, content)
    requires a in s.system.pool.lists && Valid(s.system.pool.lists[a]) && PromotableNonces(s.system.pool.lists[a]) != []
    requires var l := s.system.pool.lists[a];
             var txs := TxsOf(l, Considered(l));
             && i < |txs| && Successes(txs, verify, 0) == Successes(txs, verify, i)
             && Read(l, a).(verified := i) in s.passes
    ensures PassReachable(t, c, content) && t.system.inFlight == s.system.inFlight
    ensures t.passes == s.passes - multiset{Read(s.system.pool.lists[a], a).(verified := i)}
    ensures t.system.pool == Reorganize(s.system.pool, c, content, a, verify)
    decreases |Considered(s.system.pool.lists[a])| - i
  {
    hide PassReachable, Inv, Valid, PromotableNonces, Considered, Reorganize, Ends, Verified, Rejected, Successes, IsLast;
    var l := s.system.pool.lists[a];
    var pass := Read(l, a).(verified := i);
    var status := verify(pass.considered[i]);
    AnswerMeans(l, a, verify, i);
    if IsLast(pass, status) {
      EndIsReorganize(s.system.pool, c, content, a, verify);
      t := EndsWith(s, c, content, pass, status, Reorganize(s.system.pool, c, content, a, verify));
    } else {
      var next := GoesOnWith(s, c, content, pass, status);
      t := GoesOn(next, c, content, a, verify, i + 1);
      hide *;
      assert Read(l, a).(verified := i + 1) == pass.(verified := i + 1);
    }
  }

  /** If the answer for the i-th transaction is the last one, it ends the pass as the loop does. */
  lemma AnswerMeans(l: ListState, a: bytes, verify: Tx -> TransactionStatus, i: nat)
    requires Valid(l) && i < |Considered(l)|
    requires Successes(TxsOf(l, Considered(l)), verify, 0) == Successes(TxsOf(l, Considered(l)), verify, i)
    ensures var txs := TxsOf(l, Considered(l));
            var k := Successes(txs, verify, 0);
            var pass, status := Read(l, a).(verified := i), verify(txs[i]);
            if IsLast(pass, status) then
              && Verified(pass, status) == Promoting(l, k)
              && Rejected(pass, status) == if k < |txs| && verify(txs[k]) == Invalid then FromNonce(txs, txs[k].nonce) else []
            else i + 1 < |txs| && k == Successes(txs, verify, i + 1)
  {
    hide Valid, PromotableNonces, Considered, WithIds, Ids, FromNonce;
    var txs := TxsOf(l, Considered(l));
    assert i + 1 == |txs| ==> Successes(txs, verify, i + 1) == i + 1;
  }

  lemma ListedValid(s: PoolState, c: PoolConfig, content: bytes -> Tx, a: bytes)
    requires Inv(s, c, content) && a in s.lists
    ensures Valid(s.lists[a])
  {
    hide Inv, Valid, Genuine;
    ListedGenuine(s, c, content, a);
  }

  /** A pass that nothing interrupts is possible, and has the effect of Reorganize. */
  lemma UninterruptedPass(
    s: PassSystem, c: PoolConfig, content: bytes -> Tx, a: bytes, verify: Tx -> TransactionStatus) returns (t: PassSystem)
    requires PassReachable(s, c, content) && c.maxTransactions >= 1 && c.maxTransactionsPerAccount >= 1
    requires a in s.system.pool.lists
    ensures PassReachable(t, c, content) && t.passes == s.passes && t.system.inFlight == s.system.inFlight
    ensures Inv(s.system.pool, c, content) && t.system.pool == Reorganize(s.system.pool, c, content, a, verify)
  {
    hide PassReachable, Reachable, Safe, AllSound, Inv, Valid, PromotableNonces, Successes;
    PassReachableIsSafe(s, c, content);
    SafeIsInv(s.system, c, content);
    ListedValid(s.system.pool, c, content, a);
    var l := s.system.pool.lists[a];
    if PromotableNonces(l) == [] {
      t := s;
    } else {
      var begun := Begins(s, c, content, a);
      assert Read(l, a).(verified := 0) == Read(l, a);
      hide Reorganize, Read, Considered;
      t := GoesOn(begun, c, content, a, verify, 0);
    }
  }
}
