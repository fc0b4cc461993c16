/**
 The per-account list of transactions (elements/transaction-pool/src/transaction_list.ts) as a value:
 a map from nonces to transactions and the ascending list of processable nonces. The nonce heap of
 the source holds the keys of the map and nothing else.
 */
module NonceList {
  import opened Wrappers

  type pos = n: nat | n > 0 witness 1

  /** `sender` is the address of the sender's public key, `size` the length of the encoded transaction. */
  datatype Tx = Tx(id: bytes, sender: bytes, nonce: nat, fee: nat, size: pos)

  datatype Config = Config(maxSize: nat, minReplacementFeeDifference: nat)

  datatype ListState = ListState(txs: map<nat, Tx>, processable: seq<nat>)

  const EMPTY: ListState := ListState(map[], [])

  /* ---- Ascending sequences ---- */

  ghost predicate Ascending(xs: seq<nat>) {
    forall i, j | 0 <= i < j < |xs| :: xs[i] < xs[j]
  }

  function Insert(x: nat, xs: seq<nat>): seq<nat> {
    if xs == [] then [x] else if x < xs[0] then [x] + xs else [xs[0]] + Insert(x, xs[1..])
  }

  lemma {:induction false} InsertMembers(x: nat, xs: seq<nat>)
    ensures |Insert(x, xs)| == |xs| + 1
    ensures forall y :: y in Insert(x, xs) <==> y == x || y in xs
  {
    if xs != [] && x >= xs[0] {
      InsertMembers(x, xs[1..]);
      assert xs == [xs[0]] + xs[1..];
    }
  }

  lemma Prepend(x: nat, xs: seq<nat>)
    requires Ascending(xs) && forall y | y in xs :: x < y
    ensures Ascending([x] + xs)
  {
    assert forall i | 0 <= i < |xs| :: xs[i] in xs;
  }

  lemma AscendingTail(xs: seq<nat>)
    requires Ascending(xs) && xs != []
    ensures Ascending(xs[1..]) && forall y | y in xs[1..] :: xs[0] < y
  {
    forall y | y in xs[1..]
      ensures xs[0] < y
    {
      var k :| 0 <= k < |xs[1..]| && xs[1..][k] == y;
      assert xs[k + 1] == y;
    }
  }

  lemma {:induction false} InsertAscending(x: nat, xs: seq<nat>)
    requires Ascending(xs) && x !in xs
    ensures Ascending(Insert(x, xs)) && |Insert(x, xs)| == |xs| + 1
    ensures forall y :: y in Insert(x, xs) <==> y == x || y in xs
  {
    InsertMembers(x, xs);
    if xs == [] {
      assert Ascending([x]);
    } else {
      AscendingTail(xs);
      hide Ascending;
      assert xs == [xs[0]] + xs[1..];
      if x < xs[0] {
        Prepend(x, xs);
      } else {
        InsertAscending(x, xs[1..]);
        Prepend(xs[0], Insert(x, xs[1..]));
      }
    }
  }

  /** The elements of a set in ascending order. */
  ghost function Enumerate(s: set<nat>): (r: seq<nat>)
    ensures Ascending(r) && |r| == |s| && forall x :: x in r <==> x in s
    decreases |s|
  {
    if s == {} then []
    else
      var x :| x in s;
      var rest := Enumerate(s - {x});
      InsertAscending(x, rest);
      Insert(x, rest)
  }

  lemma HeadIn(xs: seq<nat>)
    requires xs != []
    ensures xs[0] in xs
  {
  }

  lemma {:induction false} AscendingUnique(a: seq<nat>, b: seq<nat>)
    requires Ascending(a) && Ascending(b) && forall x :: x in a <==> x in b
    ensures a == b
    decreases |a|
  {
    if a == [] {
      if b != [] {
        HeadIn(b);
        assert false;
      }
    } else {
      assert a[0] in a && a[0] in b;
      var j :| 0 <= j < |b| && b[j] == a[0];
      assert b[0] in b && b[0] in a;
      var i :| 0 <= i < |a| && a[i] == b[0];
      assert a[0] == b[0];
      var a', b' := a[1..], b[1..];
      forall x
        ensures x in a' <==> x in b'
      {
        assert x in a <==> x == a[0] || x in a' by { assert a == [a[0]] + a'; }
        assert x in b <==> x == b[0] || x in b' by { assert b == [b[0]] + b'; }
        assert a[0] !in a' && b[0] !in b';
      }
      AscendingUnique(a', b');
      assert a == [a[0]] + a' && b == [b[0]] + b';
    }
  }

  lemma EnumerateIs(a: seq<nat>, s: set<nat>)
    requires Ascending(a) && forall x :: x in a <==> x in s
    ensures Enumerate(s) == a
  {
    AscendingUnique(Enumerate(s), a);
  }

  /** The elements below a bound; of an ascending sequence, a prefix. */
  function Below(xs: seq<nat>, bound: int): (r: seq<nat>)
    ensures forall x :: x in r <==> x in xs && x < bound
  {
    if xs == [] then []
    else
      assert xs == [xs[0]] + xs[1..];
      if xs[0] < bound then [xs[0]] + Below(xs[1..], bound) else Below(xs[1..], bound)
  }

  lemma {:induction false} BelowIsPrefix(xs: seq<nat>, bound: int)
    requires Ascending(xs)
    ensures Below(xs, bound) <= xs && Ascending(Below(xs, bound))
    ensures forall i | |Below(xs, bound)| <= i < |xs| :: xs[i] >= bound
  {
    if xs != [] {
      BelowIsPrefix(xs[1..], bound);
      if xs[0] >= bound {
        NoneBelow(xs[1..], bound);
      }
    }
  }

  lemma {:induction false} NoneBelow(xs: seq<nat>, bound: int)
    requires forall i | 0 <= i < |xs| :: xs[i] >= bound
    ensures Below(xs, bound) == []
  {
    if xs != [] {
      NoneBelow(xs[1..], bound);
    }
  }

  ghost predicate Consecutive(xs: seq<nat>) {
    forall i | 0 <= i < |xs| :: xs[i] == xs[0] + i
  }

  /** The longest consecutive prefix. */
  function Run(xs: seq<nat>): seq<nat> {
    if |xs| <= 1 then xs
    else if xs[1] == xs[0] + 1 then [xs[0]] + Run(xs[1..])
    else [xs[0]]
  }

  /** The run is consecutive and cannot be extended. */
  lemma {:induction false} RunSpec(xs: seq<nat>)
    ensures Run(xs) <= xs && Consecutive(Run(xs)) && (xs != [] ==> Run(xs) != [])
    ensures 0 < |Run(xs)| < |xs| ==> xs[|Run(xs)|] != xs[|Run(xs)| - 1] + 1
  {
    if |xs| > 1 && xs[1] == xs[0] + 1 {
      RunSpec(xs[1..]);
      var r := Run(xs[1..]);
      assert xs == [xs[0]] + xs[1..];
    }
  }

  /* ---- Operations ---- */

  ghost predicate Valid(s: ListState) {
    && (forall n | n in s.txs :: s.txs[n].nonce == n)
    && Ascending(s.processable)
    && forall n | n in s.processable :: n in s.txs
  }

  /** All nonces in ascending order. */
  ghost function Nonces(s: ListState): (r: seq<nat>)
    ensures Ascending(r) && |r| == |s.txs| && forall n :: n in r <==> n in s.txs
  {
    Enumerate(s.txs.Keys)
  }

  lemma {:induction false} ProcessableFits(s: ListState)
    requires Valid(s)
    ensures |s.processable| <= |s.txs|
  {
    var p := set n | n in s.processable;
    EnumerateIs(s.processable, p);
    assert |p| == |s.processable|;
    assert p <= s.txs.Keys;
    SubsetSize(p, s.txs.Keys);
  }

  lemma SubsetSize<T>(a: set<T>, b: set<T>)
    requires a <= b
    ensures |a| <= |b|
  {
    assert b == a + (b - a);
  }

  ghost function Highest(s: ListState): int {
    if s.txs == map[] then -1 else Nonces(s)[|s.txs| - 1]
  }

  lemma HighestSpec(s: ListState)
    ensures forall n | n in s.txs :: n <= Highest(s)
    ensures s.txs != map[] ==> Highest(s) in s.txs
  {
    hide Enumerate, Nonces, Ascending;
    var ns := Nonces(s);
    if s.txs != map[] {
      LastIsGreatest(ns);
    }
  }

  lemma LastIsGreatest(xs: seq<nat>)
    requires Ascending(xs) && xs != []
    ensures xs[|xs| - 1] in xs && forall n | n in xs :: n <= xs[|xs| - 1]
  {
  }

  /** remove: the nonce leaves the list, and every nonce above it is demoted. */
  function Remove(s: ListState, nonce: nat): ListState {
    if nonce !in s.txs then s else ListState(s.txs - {nonce}, Below(s.processable, nonce))
  }

  datatype AddResult = AddResult(state: ListState, added: bool, removed: Option<bytes>)

  /** add */
  ghost function Add(s: ListState, cfg: Config, tx: Tx, processable: bool): AddResult {
    if tx.nonce in s.txs then
      var existing := s.txs[tx.nonce];
      if tx.fee < existing.fee + cfg.minReplacementFeeDifference then AddResult(s, false, None)
      else AddResult(ListState(s.txs[tx.nonce := tx], Below(s.processable, tx.nonce)), true, Some(existing.id))
    else if |s.txs| < cfg.maxSize then AddResult(Append(s, tx, processable), true, None)
    else if tx.nonce > Highest(s) then AddResult(s, false, None)
    else
      HighestSpec(s);
      var top: nat := Highest(s);
      AddResult(Append(Remove(s, top), tx, processable), true, Some(s.txs[top].id))
  }

  function Append(s: ListState, tx: Tx, processable: bool): ListState {
    ListState(s.txs[tx.nonce := tx], if processable && s.processable == [] then [tx.nonce] else s.processable)
  }

  /** All of `txs` are still in the list. */
  predicate StillThere(s: ListState, txs: seq<Tx>) {
    forall i | 0 <= i < |txs| :: txs[i].nonce in s.txs && s.txs[txs[i].nonce].id == txs[i].id
  }

  /** promote */
  ghost function Promote(s: ListState, txs: seq<Tx>): ListState {
    if StillThere(s, txs) then
      s.(processable := Enumerate((set n | n in s.processable) + (set i | 0 <= i < |txs| :: txs[i].nonce)))
    else s
  }

  function TxsOf(s: ListState, nonces: seq<nat>): (r: seq<Tx>)
    requires forall n | n in nonces :: n in s.txs
    ensures |r| == |nonces| && forall i | 0 <= i < |nonces| :: r[i] == s.txs[nonces[i]]
  {
    seq(|nonces|, i requires 0 <= i < |nonces| => s.txs[nonces[i]])
  }

  ghost function UnprocessableNonces(s: ListState): (r: seq<nat>)
    requires Valid(s)
    ensures forall n | n in r :: n in s.txs
  {
    ProcessableFits(s);
    var ns := Nonces(s);
    assert forall n | n in ns[|s.processable|..] :: n in ns;
    ns[|s.processable|..]
  }

  /** What continues the nonces `p`, at the start of those behind them. */
  function Continuation(p: seq<nat>, rest: seq<nat>): seq<nat> {
    if rest == [] then []
    else if p != [] && rest[0] != p[|p| - 1] + 1 then []
    else Run(rest)
  }

  ghost function PromotableNonces(s: ListState): (r: seq<nat>)
    requires Valid(s)
    ensures forall n | n in r :: n in s.txs
  {
    hide Valid, UnprocessableNonces, Run;
    var rest := UnprocessableNonces(s);
    RunMembers(rest);
    Continuation(s.processable, rest)
  }

  lemma RunMembers(xs: seq<nat>)
    ensures forall n | n in Run(xs) :: n in xs
  {
    RunSpec(xs);
    hide Run;
    assert forall i | 0 <= i < |Run(xs)| :: Run(xs)[i] == xs[i];
  }

  /* ---- The invariant of sequential runs ---- */

  /** The processable nonces are a consecutive run and the lowest part of the list. */
  ghost predicate Lowest(s: ListState) {
    Valid(s) && s.processable <= Nonces(s) && Consecutive(s.processable)
  }

  lemma DropAscends(ns: seq<nat>, i: nat)
    requires Ascending(ns) && i < |ns|
    ensures Ascending(ns[i..]) && Ascending(ns[i + 1..]) && ns[i..][1..] == ns[i + 1..] && ns[i..][0] == ns[i] && ns[i] in ns
  {
  }

  lemma LowestValid(s: ListState)
    requires Lowest(s)
    ensures Valid(s)
  {
  }

  lemma EmptyLowest()
    ensures Lowest(EMPTY)
  {
    EnumerateIs([], EMPTY.txs.Keys);
  }

  lemma AscendingSplit(xs: seq<nat>, k: nat)
    requires Ascending(xs) && k <= |xs|
    ensures forall p, u | p in xs[..k] && u in xs[k..] :: p < u
  {
    forall p, u | p in xs[..k] && u in xs[k..]
      ensures p < u
    {
      var i :| 0 <= i < k && xs[i] == p;
      var j :| 0 <= j < |xs[k..]| && xs[k..][j] == u;
      assert xs[k + j] == u;
    }
  }

  /** Then the two getters together list the whole account, in nonce order. */
  lemma GettersCoverList(s: ListState)
    requires Lowest(s)
    ensures s.processable + UnprocessableNonces(s) == Nonces(s)
    ensures forall p, u | p in s.processable && u in UnprocessableNonces(s) :: p < u
  {
    hide Enumerate, Ascending, Consecutive, Nonces;
    var ns, k := Nonces(s), |s.processable|;
    assert ns == ns[..k] + ns[k..];
    AscendingSplit(ns, k);
  }

  /**
   getUnprocessable pops as many nonces as there are processable ones: it returns exactly the nonces that are not
   processable if and only if the processable ones are the lowest of the list.
   */
  lemma UnprocessableExactIff(s: ListState)
    requires Valid(s)
    ensures (forall n :: n in UnprocessableNonces(s) <==> n in s.txs && n !in s.processable) <==> s.processable <= Nonces(s)
  {
    hide *;
    UnprocessableParts(s);
    var ns, k := Nonces(s), |s.processable|;
    AscendingSplit(ns, k);
    PrefixAscending(ns, ns[..k]);
    ComplementIff(ns, s.processable, k);
  }

  lemma UnprocessableParts(s: ListState)
    requires Valid(s)
    ensures |s.processable| <= |s.txs| && UnprocessableNonces(s) == Nonces(s)[|s.processable|..]
    ensures Ascending(s.processable) && forall n | n in s.processable :: n in s.txs
  {
    ProcessableFits(s);
    hide Enumerate, Nonces;
  }

  lemma ComplementIff(ns: seq<nat>, p: seq<nat>, k: nat)
    requires k == |p| <= |ns| && Ascending(p) && Ascending(ns[..k]) && (forall n | n in p :: n in ns)
    requires forall x, y | x in ns[..k] && y in ns[k..] :: x < y
    ensures (forall n :: n in ns[k..] <==> n in ns && n !in p) <==> p <= ns
  {
    assert ns == ns[..k] + ns[k..];
    if p <= ns {
      assert p == ns[..k];
    } else if forall n :: n in ns[k..] <==> n in ns && n !in p {
      forall n
        ensures n in p <==> n in ns[..k]
      {
      }
      AscendingUnique(p, ns[..k]);
      assert false;
    }
  }

  lemma AscendingDrop(xs: seq<nat>, k: nat)
    requires Ascending(xs) && k < |xs|
    ensures var r := xs[..k] + xs[k + 1..];
            Ascending(r) && forall n :: n in r <==> n in xs && n != xs[k]
  {
    var r := xs[..k] + xs[k + 1..];
    assert forall i | 0 <= i < |r| :: r[i] == if i < k then xs[i] else xs[i + 1];
    assert xs == xs[..k] + [xs[k]] + xs[k + 1..];
    AscendingSplit(xs, k);
    AscendingSplit(xs, k + 1);
    assert xs[k] in xs[k..] && xs[k] in xs[..k + 1];
  }

  /** Removing a nonce leaves the others in order. */
  lemma NoncesWithout(s: ListState, nonce: nat, k: nat)
    requires Valid(s) && k < |s.txs| && Nonces(s)[k] == nonce
    ensures Nonces(Remove(s, nonce)) == Nonces(s)[..k] + Nonces(s)[k + 1..]
  {
    hide Enumerate, Ascending, Valid;
    var ns := Nonces(s);
    assert nonce in ns;
    AscendingDrop(ns, k);
    EnumerateIs(ns[..k] + ns[k + 1..], Remove(s, nonce).txs.Keys);
  }

  lemma RemoveValid(s: ListState, nonce: nat)
    requires Valid(s)
    ensures Valid(Remove(s, nonce))
  {
    BelowIsPrefix(s.processable, nonce);
  }

  lemma PrefixBelow(ns: seq<nat>, p: seq<nat>, k: nat)
    requires Ascending(ns) && p <= ns && k < |ns| && Consecutive(p)
    ensures Below(p, ns[k]) <= ns[..k] + ns[k + 1..] && Consecutive(Below(p, ns[k]))
  {
    hide Below;
    BelowIsPrefix(p, ns[k]);
    var b := Below(p, ns[k]);
    if b != [] {
      var last := |b| - 1;
      assert b[last] in b && ns[last] == p[last] == b[last];
      assert last < k;
      assert b[0] == p[0];
    }
    assert b <= ns[..k];
  }

  lemma RemoveKeepsLowest(s: ListState, nonce: nat)
    requires Lowest(s)
    ensures Lowest(Remove(s, nonce))
  {
    RemoveValid(s, nonce);
    if nonce in s.txs {
      hide Enumerate, Nonces, Below, Valid, Ascending, Consecutive;
      var ns := Nonces(s);
      assert nonce in ns;
      var k :| 0 <= k < |ns| && ns[k] == nonce;
      NoncesWithout(s, nonce, k);
      PrefixBelow(ns, s.processable, k);
    }
  }

  lemma InsertPrefix(x: nat, ns: seq<nat>, p: seq<nat>)
    requires Ascending(ns) && p <= ns && (p != [] ==> x > p[|p| - 1])
    ensures p <= Insert(x, ns)
  {
    assert ns[..|p|] == p;
    forall i | 0 <= i < |p|
      ensures ns[i] < x
    {
      assert ns[i] == p[i];
    }
    hide Insert, Ascending;
    InsertBehind(x, ns, |p|);
  }

  lemma AppendValid(s: ListState, tx: Tx, processable: bool)
    requires Valid(s) && tx.nonce !in s.txs
    ensures Valid(Append(s, tx, processable))
  {
  }

  lemma NoncesAppend(s: ListState, tx: Tx, processable: bool)
    requires tx.nonce !in s.txs
    ensures Nonces(Append(s, tx, processable)) == Insert(tx.nonce, Nonces(s))
  {
    hide Enumerate, Ascending, Insert;
    var ns := Nonces(s);
    InsertAscending(tx.nonce, ns);
    EnumerateIs(Insert(tx.nonce, ns), Append(s, tx, processable).txs.Keys);
  }

  lemma InsertFirst(x: nat, xs: seq<nat>)
    requires xs != [] ==> x < xs[0]
    ensures [x] <= Insert(x, xs)
  {
  }

  lemma SingleConsecutive(x: nat)
    ensures Consecutive([x])
  {
  }

  /** A new nonce above all processable ones, or below everything when there is none, keeps the order. */
  lemma AppendKeepsLowest(s: ListState, tx: Tx, processable: bool)
    requires Lowest(s) && tx.nonce !in s.txs
    requires s.processable != [] ==> tx.nonce > s.processable[|s.processable| - 1]
    requires processable && s.processable == [] ==> forall n | n in s.txs :: tx.nonce < n
    ensures Lowest(Append(s, tx, processable))
  {
    AppendValid(s, tx, processable);
    NoncesAppend(s, tx, processable);
    hide Enumerate, Valid, Ascending, Nonces, Insert, Consecutive;
    var ns := Nonces(s);
    if processable && s.processable == [] {
      if ns != [] {
        HeadIn(ns);
      }
      InsertFirst(tx.nonce, ns);
      SingleConsecutive(tx.nonce);
    } else {
      InsertPrefix(tx.nonce, ns, s.processable);
    }
  }

  lemma {:induction false} InsertBehind(x: nat, xs: seq<nat>, k: nat)
    requires k <= |xs| && forall i | 0 <= i < k :: xs[i] < x
    ensures xs[..k] <= Insert(x, xs)
    decreases |xs|
  {
    if xs != [] && k > 0 {
      InsertBehind(x, xs[1..], k - 1);
      assert xs[..k] == [xs[0]] + xs[1..][..k - 1];
    }
  }

  lemma ReplaceKeepsLowest(s: ListState, tx: Tx)
    requires Lowest(s) && tx.nonce in s.txs
    ensures Lowest(ListState(s.txs[tx.nonce := tx], Below(s.processable, tx.nonce)))
  {
    hide Enumerate, Ascending, Consecutive, Below;
    var t := ListState(s.txs[tx.nonce := tx], Below(s.processable, tx.nonce));
    assert t.txs.Keys == s.txs.Keys;
    BelowIsPrefix(s.processable, tx.nonce);
    PrefixConsecutive(s.processable, t.processable);
    ReplaceValid(s, tx);
    hide Valid;
    assert t.processable <= Nonces(t);
  }

  lemma ReplaceValid(s: ListState, tx: Tx)
    requires Valid(s) && tx.nonce in s.txs
    ensures Valid(ListState(s.txs[tx.nonce := tx], Below(s.processable, tx.nonce)))
  {
    BelowIsPrefix(s.processable, tx.nonce);
  }

  lemma PrefixConsecutive(xs: seq<nat>, p: seq<nat>)
    requires Consecutive(xs) && p <= xs
    ensures Consecutive(p)
  {
    if p != [] {
      assert p[0] == xs[0];
    }
  }

  /** What callers of `add` observe: the flag is only set for the lowest nonce, and no nonce is below the processable ones. */
  ghost predicate LegalAdd(s: ListState, tx: Tx, processable: bool) {
    && (processable ==> forall n | n in s.txs :: tx.nonce <= n)
    && (s.processable != [] ==> s.processable[0] <= tx.nonce)
  }

  lemma ConsecutiveCovers(xs: seq<nat>, n: nat)
    requires Consecutive(xs) && xs != [] && xs[0] <= n <= xs[|xs| - 1]
    ensures n in xs
  {
    assert xs[|xs| - 1] == xs[0] + (|xs| - 1);
    assert xs[n - xs[0]] == n;
  }

  lemma NewNonceIsAbove(s: ListState, tx: Tx)
    requires Lowest(s) && s.processable != [] && s.processable[0] <= tx.nonce && tx.nonce !in s.txs
    ensures tx.nonce > s.processable[|s.processable| - 1]
  {
    if tx.nonce <= s.processable[|s.processable| - 1] {
      ConsecutiveCovers(s.processable, tx.nonce);
      assert false;
    }
  }

  /** In an ordered list nothing is below the processable nonces. */
  lemma LowestIsLeast(s: ListState)
    requires Lowest(s) && s.processable != []
    ensures forall n | n in s.txs :: s.processable[0] <= n
  {
    hide Enumerate, Valid, Consecutive;
    var ns := Nonces(s);
    assert ns[0] == s.processable[0];
    forall n | n in s.txs
      ensures s.processable[0] <= n
    {
      assert n in ns;
      var i :| 0 <= i < |ns| && ns[i] == n;
      assert i > 0 ==> ns[0] < ns[i];
    }
  }

  /** A nonce appended to `s` comes behind the processable ones, or is the lowest if it is to be the first of them. */
  ghost predicate InOrder(s: ListState, tx: Tx, processable: bool) {
    if s.processable == [] then processable ==> forall n | n in s.txs :: tx.nonce < n
    else s.processable[0] < tx.nonce
  }

  lemma AppendKeepsLowestIff(s: ListState, tx: Tx, processable: bool)
    requires Lowest(s) && tx.nonce !in s.txs
    ensures Lowest(Append(s, tx, processable)) <==> InOrder(s, tx, processable)
  {
    hide Lowest;
    if InOrder(s, tx, processable) {
      if s.processable != [] {
        NewNonceIsAbove(s, tx);
      }
      AppendKeepsLowest(s, tx, processable);
    } else if Lowest(Append(s, tx, processable)) {
      var t := Append(s, tx, processable);
      var n: nat := if s.processable == [] then LowerNonce(s, tx) else tx.nonce;
      if s.processable != [] {
        FirstIsProcessable(s);
      }
      assert n in t.txs && n < t.processable[0];
      LowestIsLeast(t);
      assert false;
    }
  }

  ghost function LowerNonce(s: ListState, tx: Tx): (n: nat)
    requires tx.nonce !in s.txs && exists m | m in s.txs :: m <= tx.nonce
    ensures n in s.txs && n < tx.nonce
  {
    var m :| m in s.txs && m <= tx.nonce;
    m
  }

  lemma FirstIsProcessable(s: ListState)
    requires Lowest(s) && s.processable != []
    ensures s.processable[0] in s.txs
  {
    assert s.processable[0] in s.processable;
  }

  /** What an addition must meet: nothing if it replaces or is refused, else to be in order behind what it displaces. */
  ghost predicate AddsInOrder(s: ListState, cfg: Config, tx: Tx, processable: bool) {
    || tx.nonce in s.txs
    || if |s.txs| < cfg.maxSize then InOrder(s, tx, processable)
       else tx.nonce <= Highest(s) ==> InOrder(Remove(s, Highest(s)), tx, processable)
  }

  /** Exactly when an addition keeps an ordered list ordered. */
  lemma AddKeepsLowestIff(s: ListState, cfg: Config, tx: Tx, processable: bool)
    requires Lowest(s) && |s.txs| <= cfg.maxSize
    ensures Lowest(Add(s, cfg, tx, processable).state) <==> AddsInOrder(s, cfg, tx, processable)
    ensures |Add(s, cfg, tx, processable).state.txs| <= cfg.maxSize
  {
    hide Lowest, InOrder, Append, Remove, Highest, Below;
    if tx.nonce in s.txs {
      ReplaceKeepsLowest(s, tx);
      assert s.txs[tx.nonce := tx].Keys == s.txs.Keys;
    } else if |s.txs| < cfg.maxSize {
      AppendKeepsLowestIff(s, tx, processable);
      AppendSize(s, tx, processable);
    } else if tx.nonce <= Highest(s) {
      HighestSpec(s);
      assert s.txs != map[] by { EmptyHighest(s); }
      var top: nat := Highest(s);
      RemoveKeepsLowest(s, top);
      RemoveSize(s, top);
      StaysAway(s, top, tx);
      AppendKeepsLowestIff(Remove(s, top), tx, processable);
      AppendSize(Remove(s, top), tx, processable);
    }
  }

  lemma EmptyHighest(s: ListState)
    requires Highest(s) >= 0
    ensures s.txs != map[]
  {
  }

  lemma StaysAway(s: ListState, nonce: nat, tx: Tx)
    requires tx.nonce !in s.txs
    ensures tx.nonce !in Remove(s, nonce).txs
  {
  }

  /** A legal addition is in order. */
  lemma LegalIsInOrder(s: ListState, cfg: Config, tx: Tx, processable: bool)
    requires Lowest(s) && LegalAdd(s, tx, processable)
    ensures AddsInOrder(s, cfg, tx, processable)
  {
    hide Lowest, Highest;
    if tx.nonce !in s.txs {
      if s.processable != [] {
        FirstIsProcessable(s);
      }
      if |s.txs| >= cfg.maxSize && tx.nonce <= Highest(s) {
        LowestValid(s);
        BelowIsPrefix(s.processable, Highest(s));
      }
    }
  }

  lemma AppendSize(s: ListState, tx: Tx, processable: bool)
    requires tx.nonce !in s.txs
    ensures |Append(s, tx, processable).txs| == |s.txs| + 1
  {
    assert Append(s, tx, processable).txs.Keys == s.txs.Keys + {tx.nonce};
  }

  lemma RemoveSize(s: ListState, nonce: nat)
    requires nonce in s.txs
    ensures |Remove(s, nonce).txs| == |s.txs| - 1
  {
    assert Remove(s, nonce).txs.Keys == s.txs.Keys - {nonce};
  }

  /** Promoting a prefix of the promotable transactions extends the run. */
  lemma PromoteKeepsLowest(s: ListState, k: nat)
    requires Lowest(s) && k <= |PromotableNonces(s)|
    ensures forall n | n in PromotableNonces(s)[..k] :: n in s.txs
    ensures var txs := TxsOf(s, PromotableNonces(s)[..k]);
            && Promote(s, txs) == s.(processable := s.processable + PromotableNonces(s)[..k])
            && Lowest(Promote(s, txs))
  {
    PromotableExtends(s, k);
    PromotedValid(s, PromotableNonces(s)[..k]);
    hide Enumerate, PromotableNonces, Nonces, Valid, Ascending, Consecutive;
  }

  /** Promoting transactions of the list sets exactly their nonces. */
  lemma PromotedValid(s: ListState, r: seq<nat>)
    requires Valid(s) && Ascending(s.processable + r) && forall n | n in r :: n in s.txs
    ensures Promote(s, TxsOf(s, r)) == s.(processable := s.processable + r)
    ensures Valid(Promote(s, TxsOf(s, r)))
  {
    var txs := TxsOf(s, r);
    assert forall i | 0 <= i < |txs| :: txs[i].nonce == r[i];
    hide Enumerate;
    assert StillThere(s, txs);
    var both := (set n | n in s.processable) + (set i | 0 <= i < |txs| :: txs[i].nonce);
    SameNonces(s, s.processable, r, txs, both);
    EnumerateIs(s.processable + r, both);
  }

  /** Promotion never adds or drops a transaction. */
  lemma PromoteValid(s: ListState, txs: seq<Tx>)
    requires Valid(s)
    ensures Valid(Promote(s, txs)) && Promote(s, txs).txs == s.txs
  {
    hide Enumerate, Ascending;
  }

  lemma SameNonces(s: ListState, p: seq<nat>, r: seq<nat>, txs: seq<Tx>, both: set<nat>)
    requires |txs| == |r| && forall i | 0 <= i < |r| :: txs[i].nonce == r[i]
    requires both == (set n | n in p) + (set i | 0 <= i < |txs| :: txs[i].nonce)
    ensures forall n :: n in p + r <==> n in both
  {
    forall n
      ensures n in p + r <==> n in both
    {
      if n in r {
        var i :| 0 <= i < |r| && r[i] == n;
        assert txs[i].nonce == n;
      }
    }
  }

  /** The processable nonces with a prefix of the promotable ones are again the lowest run. */
  lemma PromotableExtends(s: ListState, k: nat)
    requires Lowest(s) && k <= |PromotableNonces(s)|
    ensures var q := s.processable + PromotableNonces(s)[..k];
            && Ascending(q) && Consecutive(q) && q <= Nonces(s) && forall n | n in q :: n in s.txs
  {
    var ns, p := Nonces(s), s.processable;
    var rest := UnprocessableNonces(s);
    GettersCoverList(s);
    RunSpec(rest);
    hide Enumerate, Nonces, Valid, Run, Ascending, Consecutive, UnprocessableNonces;
    if rest != [] && (p == [] || rest[0] == p[|p| - 1] + 1) {
      ExtendRun(p, rest, k);
    } else {
      assert PromotableNonces(s)[..k] == [] && p + [] == p;
      assert p <= ns;
      PrefixAscending(ns, p);
    }
    PrefixMembers(p + PromotableNonces(s)[..k], ns);
  }

  lemma PrefixMembers(q: seq<nat>, ns: seq<nat>)
    requires q <= ns
    ensures forall n | n in q :: n in ns
  {
  }

  lemma PrefixAscending(ns: seq<nat>, p: seq<nat>)
    requires Ascending(ns) && p <= ns
    ensures Ascending(p)
  {
  }

  lemma ExtendRun(p: seq<nat>, rest: seq<nat>, k: nat)
    requires Ascending(p + rest) && Consecutive(p) && rest != [] && k <= |Run(rest)|
    requires p != [] ==> rest[0] == p[|p| - 1] + 1
    ensures var q := p + Run(rest)[..k]; Ascending(q) && Consecutive(q) && q <= p + rest
  {
    RunSpec(rest);
    hide Run;
    var r := Run(rest)[..k];
    assert r <= rest;
    var q := p + r;
    assert q <= p + rest;
    PrefixAscending(p + rest, q);
    hide Ascending;
    forall i | 0 <= i < |q|
      ensures q[i] == q[0] + i
    {
      if i >= |p| {
        assert q[i] == Run(rest)[i - |p|] == rest[0] + (i - |p|);
      }
    }
  }

  /* ---- Whatever the list: what promotable nonces say about it ---- */

  /** As many ascending elements as the front has, all of it, are the front. */
  lemma {:induction false} FillsFront(p: seq<nat>, ns: seq<nat>)
    requires Ascending(p) && Ascending(ns) && |p| <= |ns| && forall n | n in p :: n in ns[..|p|]
    ensures p <= ns
  {
    if p != [] {
      var m := |p| - 1;
      assert p[m] in p;
      var last :| 0 <= last <= m && ns[last] == p[m];
      forall n | n in p[..m]
        ensures n in ns[..m]
      {
        assert n in p && n < p[m];
        var i :| 0 <= i <= m && ns[i] == n;
        assert i < last;
        assert ns[..m][i] == n;
      }
      FillsFront(p[..m], ns);
      assert last == m;
      assert p == p[..m] + [p[m]];
    }
  }

  /** If the first nonce getUnprocessable returns is above all processable ones, these are the lowest of the list. */
  lemma NextAboveIsPrefix(s: ListState)
    requires Valid(s) && UnprocessableNonces(s) != []
    requires s.processable != [] ==> s.processable[|s.processable| - 1] < UnprocessableNonces(s)[0]
    ensures s.processable <= Nonces(s)
  {
    UnprocessableParts(s);
    var p, ns := s.processable, Nonces(s);
    hide Enumerate, Nonces, Valid, UnprocessableNonces;
    assert UnprocessableNonces(s)[0] == ns[|p|];
    forall n | n in p
      ensures n in ns[..|p|]
    {
      LastIsGreatest(p);
      assert n in ns;
      var i :| 0 <= i < |ns| && ns[i] == n;
      assert i < |p| && ns[..|p|][i] == n;
    }
    FillsFront(p, ns);
  }

  lemma PromotableParts(s: ListState)
    requires Valid(s) && PromotableNonces(s) != []
    ensures var p, rest := s.processable, UnprocessableNonces(s);
            rest != [] && PromotableNonces(s) == Run(rest) && (p != [] ==> rest[0] == p[|p| - 1] + 1)
  {
    hide Valid, UnprocessableNonces, Run;
  }

  /** Where anything is promotable, the processable nonces are the lowest of the list, and the promotable ones continue them. */
  lemma PromotableMeansPrefix(s: ListState)
    requires Valid(s) && PromotableNonces(s) != []
    ensures s.processable <= Nonces(s)
    ensures var q := s.processable + PromotableNonces(s);
            && Ascending(q) && q <= Nonces(s)
            && forall i | 0 < i < |q| && |s.processable| <= i :: q[i] == q[i - 1] + 1
  {
    hide *;
    PromotableParts(s);
    NextAboveIsPrefix(s);
    UnprocessableParts(s);
    var p, rest, ns := s.processable, UnprocessableNonces(s), Nonces(s);
    RunSpec(rest);
    assert p == ns[..|p|] && ns == p + rest;
    RunSteps(p, Run(rest));
    assert p + Run(rest) <= ns;
    PrefixAscending(ns, p + Run(rest));
  }

  lemma RunSteps(p: seq<nat>, r: seq<nat>)
    requires Consecutive(r) && (p != [] && r != [] ==> r[0] == p[|p| - 1] + 1)
    ensures forall i | 0 < i < |p + r| && |p| <= i :: (p + r)[i] == (p + r)[i - 1] + 1
  {
  }

  /* ---- Promotions that were read earlier ---- */

  ghost function NoncesOf(txs: seq<Tx>): set<nat> {
    set i | 0 <= i < |txs| :: txs[i].nonce
  }

  /** Beside nonces that are processable already, `txs` are exactly the first `k` promotable nonces. */
  ghost predicate FillsUp(s: ListState, k: nat, txs: seq<Tx>)
    requires Valid(s)
  {
    && k <= |PromotableNonces(s)|
    && (forall n | n in NoncesOf(txs) :: n in s.processable || n in PromotableNonces(s)[..k])
    && (forall n | n in PromotableNonces(s)[..k] :: n in NoncesOf(txs))
  }

  lemma {:induction false} RunLongest(xs: seq<nat>, k: nat)
    requires k <= |xs| && Consecutive(xs[..k])
    ensures k <= |Run(xs)| && Run(xs)[..k] == xs[..k]
  {
    if k > 1 {
      assert xs[..k][1] == xs[..k][0] + 1;
      var tail := xs[1..][..k - 1];
      forall i | 0 <= i < |tail|
        ensures tail[i] == tail[0] + i
      {
        assert tail[i] == xs[..k][i + 1];
      }
      RunLongest(xs[1..], k - 1);
      assert xs[..k] == [xs[0]] + xs[1..][..k - 1];
    }
  }

  /** A longer consecutive part at the bottom of the list is the processable nonces and the first promotable ones. */
  lemma LongerRun(s: ListState, q: seq<nat>)
    requires Lowest(s) && q <= Nonces(s) && Consecutive(q) && |s.processable| <= |q|
    ensures var k := |q| - |s.processable|;
            k <= |PromotableNonces(s)| && q == s.processable + PromotableNonces(s)[..k]
  {
    hide *;
    GettersCoverList(s);
    LowestValid(s);
    PromotableContinues(s);
    LongerContinuation(s.processable, UnprocessableNonces(s), q);
  }

  lemma PromotableContinues(s: ListState)
    requires Valid(s)
    ensures PromotableNonces(s) == Continuation(s.processable, UnprocessableNonces(s))
  {
    hide UnprocessableNonces, Valid, Continuation;
  }

  lemma LongerContinuation(p: seq<nat>, rest: seq<nat>, q: seq<nat>)
    requires q <= p + rest && Consecutive(q) && |p| <= |q|
    ensures var k := |q| - |p|; k <= |Continuation(p, rest)| && q == p + Continuation(p, rest)[..k]
  {
    var k := |q| - |p|;
    assert q == p + rest[..k];
    if k > 0 {
      TailConsecutive(p, rest[..k]);
      hide Consecutive;
      RunLongest(rest, k);
    }
  }

  lemma TailConsecutive(p: seq<nat>, r: seq<nat>)
    requires Consecutive(p + r) && r != []
    ensures Consecutive(r) && (p != [] ==> r[0] == p[|p| - 1] + 1)
  {
    var q := p + r;
    assert q[|p|] == r[0] && (p != [] ==> q[|p| - 1] == p[|p| - 1] && q[0] == p[0]);
    forall i | 0 <= i < |r|
      ensures r[i] == r[0] + i
    {
      assert q[|p| + i] == r[i];
    }
  }

  lemma PrefixOfLonger(ns: seq<nat>, p: seq<nat>, q: seq<nat>)
    requires Ascending(ns) && p <= ns && q <= ns && forall n | n in p :: n in q
    ensures |p| <= |q| && p <= q
  {
    assert forall i | 0 <= i < |p| :: p[i] in p && p[i] == ns[i];
    assert forall i | 0 <= i < |q| :: q[i] == ns[i];
    if |p| > |q| {
      NotInPrefix(ns, q);
      assert false;
    }
  }

  lemma NotInPrefix(ns: seq<nat>, q: seq<nat>)
    requires Ascending(ns) && q <= ns && |q| < |ns|
    ensures ns[|q|] !in q
  {
  }

  lemma PromotedMembers(s: ListState, txs: seq<Tx>)
    requires StillThere(s, txs)
    ensures forall n :: n in Promote(s, txs).processable <==> n in s.processable || n in NoncesOf(txs)
    ensures Ascending(Promote(s, txs).processable) && Nonces(Promote(s, txs)) == Nonces(s)
  {
    hide Enumerate, Ascending;
  }

  lemma FillingKeepsLowest(s: ListState, k: nat, txs: seq<Tx>)
    requires Lowest(s) && StillThere(s, txs) && FillsUp(s, k, txs)
    ensures Lowest(Promote(s, txs))
  {
    PromotableExtends(s, k);
    PromoteKeepsLowest(s, k);
    PromotedMembers(s, txs);
    var q, r := s.processable + PromotableNonces(s)[..k], Promote(s, txs);
    assert forall n :: n in q <==> n in r.processable by { hide Lowest, Valid, Ascending, Consecutive, Nonces, Promote, PromotableNonces; }
    AscendingUnique(q, r.processable);
    hide *;
    assert r == s.(processable := q) by { PromoteKeepsTxs(s, txs); }
  }

  lemma PromoteKeepsTxs(s: ListState, txs: seq<Tx>)
    ensures Promote(s, txs).txs == s.txs
  {
    hide Enumerate;
  }

  lemma LowestFills(s: ListState, txs: seq<Tx>) returns (k: nat)
    requires Lowest(s) && StillThere(s, txs) && Lowest(Promote(s, txs))
    ensures FillsUp(s, k, txs)
  {
    PromotedMembers(s, txs);
    var p, q := s.processable, Promote(s, txs).processable;
    assert Valid(s) && p <= Nonces(s) && q <= Nonces(s) && Consecutive(q);
    hide *;
    PrefixOfLonger(Nonces(s), p, q);
    LongerRun(s, q);
    k := |q| - |p|;
    SplitMembers(p, PromotableNonces(s)[..k], NoncesOf(txs));
    assert FillsUp(s, k, txs) by { FillsUpIs(s, k, txs); }
  }

  lemma SplitMembers(p: seq<nat>, r: seq<nat>, nonces: set<nat>)
    requires Ascending(p + r) && forall n :: n in p + r <==> n in p || n in nonces
    ensures (forall n | n in nonces :: n in p || n in r) && (forall n | n in r :: n in nonces)
  {
    hide Ascending;
    forall n | n in nonces
      ensures n in p || n in r
    {
      assert n in p + r;
    }
    forall n | n in r
      ensures n in nonces
    {
      assert n in p + r;
      NotBoth(p, r, n);
    }
  }

  lemma FillsUpIs(s: ListState, k: nat, txs: seq<Tx>)
    requires Valid(s) && k <= |PromotableNonces(s)|
    requires forall n | n in NoncesOf(txs) :: n in s.processable || n in PromotableNonces(s)[..k]
    requires forall n | n in PromotableNonces(s)[..k] :: n in NoncesOf(txs)
    ensures FillsUp(s, k, txs)
  {
    hide Valid, PromotableNonces, NoncesOf;
  }

  lemma NotBoth(p: seq<nat>, r: seq<nat>, n: nat)
    requires Ascending(p + r) && n in r
    ensures n !in p
  {
    AscendingSplit(p + r, |p|);
    assert (p + r)[..|p|] == p && (p + r)[|p|..] == r;
  }

  /**
   A promotion, of whatever was read at whatever time, keeps an ordered list ordered if and only if it does nothing or,
   beside nonces that are processable already, promotes exactly the first few of what is promotable now.
   */
  lemma PromoteKeepsLowestIff(s: ListState, txs: seq<Tx>)
    requires Lowest(s)
    ensures Lowest(Promote(s, txs)) <==> (StillThere(s, txs) ==> exists k: nat :: FillsUp(s, k, txs))
  {
    if StillThere(s, txs) {
      if k: nat :| FillsUp(s, k, txs) {
        FillingKeepsLowest(s, k, txs);
      }
      if Lowest(Promote(s, txs)) {
        var k := LowestFills(s, txs);
      }
    }
  }

  /* ---- Whole runs ---- */

  datatype Op =
    | AddOp(tx: Tx, processable: bool)
    | RemoveOp(nonce: nat)
    | PromoteOp(txs: seq<Tx>)

  ghost predicate Legal(s: ListState, cfg: Config, op: Op) {
    match op
    case AddOp(tx, processable) => AddsInOrder(s, cfg, tx, processable)
    case RemoveOp(_) => true
    case PromoteOp(txs) => StillThere(s, txs) ==> Valid(s) && exists k: nat :: FillsUp(s, k, txs)
  }

  ghost function Next(s: ListState, cfg: Config, op: Op): ListState {
    match op
    case AddOp(tx, processable) => Add(s, cfg, tx, processable).state
    case RemoveOp(nonce) => Remove(s, nonce)
    case PromoteOp(txs) => Promote(s, txs)
  }

  /** `states` is what a list goes through from its creation, one operation after another. */
  ghost predicate IsRun(states: seq<ListState>, ops: seq<Op>, cfg: Config) {
    && |states| == |ops| + 1 && states[0] == EMPTY
    && forall i | 0 <= i < |ops| :: states[i + 1] == Next(states[i], cfg, ops[i])
  }

  lemma NextKeepsLowestIff(s: ListState, cfg: Config, op: Op)
    requires Lowest(s) && |s.txs| <= cfg.maxSize
    ensures Lowest(Next(s, cfg, op)) <==> Legal(s, cfg, op)
    ensures |Next(s, cfg, op).txs| <= cfg.maxSize
  {
    hide Lowest, Add, AddsInOrder, FillsUp;
    LowestValid(s);
    match op
    case AddOp(tx, processable) => AddKeepsLowestIff(s, cfg, tx, processable);
    case RemoveOp(nonce) =>
      RemoveKeepsLowest(s, nonce);
      if nonce in s.txs {
        RemoveSize(s, nonce);
      }
    case PromoteOp(txs) => PromoteKeepsLowestIff(s, txs);
  }

  /** As long as every operation was legal the list is ordered: its processable nonces are a consecutive run, the lowest of the list. */
  lemma {:induction false} LegalRunKeepsLowest(states: seq<ListState>, ops: seq<Op>, cfg: Config, i: nat)
    requires IsRun(states, ops, cfg) && i < |states| && forall j | 0 <= j < i :: Legal(states[j], cfg, ops[j])
    ensures Lowest(states[i]) && |states[i].txs| <= cfg.maxSize
    decreases i
  {
    hide Lowest, Legal, Next;
    if i == 0 {
      EmptyLowest();
    } else {
      LegalRunKeepsLowest(states, ops, cfg, i - 1);
      NextKeepsLowestIff(states[i - 1], cfg, ops[i - 1]);
    }
  }

  /** A run keeps its list ordered throughout if and only if every operation of it is legal where it is taken. */
  lemma RunsKeepLowestIff(states: seq<ListState>, ops: seq<Op>, cfg: Config)
    requires IsRun(states, ops, cfg)
    ensures (forall i | 0 <= i < |states| :: Lowest(states[i])) <==> forall i | 0 <= i < |ops| :: Legal(states[i], cfg, ops[i])
  {
    hide Lowest, Legal, Next;
    if forall i | 0 <= i < |ops| :: Legal(states[i], cfg, ops[i]) {
      forall i | 0 <= i < |states|
        ensures Lowest(states[i])
      {
        LegalRunKeepsLowest(states, ops, cfg, i);
      }
    } else {
      var i := FirstIllegal(states, ops, cfg, |ops|);
      LegalRunKeepsLowest(states, ops, cfg, i);
      NextKeepsLowestIff(states[i], cfg, ops[i]);
      assert !Lowest(states[i + 1]);
    }
  }

  lemma {:induction false} FirstIllegal(states: seq<ListState>, ops: seq<Op>, cfg: Config, n: nat) returns (i: nat)
    requires |states| == |ops| + 1 && n <= |ops| && exists j | 0 <= j < n :: !Legal(states[j], cfg, ops[j])
    ensures i < n && !Legal(states[i], cfg, ops[i]) && forall j | 0 <= j < i :: Legal(states[j], cfg, ops[j])
    decreases n
  {
    hide Legal;
    if exists j | 0 <= j < n - 1 :: !Legal(states[j], cfg, ops[j]) {
      i := FirstIllegal(states, ops, cfg, n - 1);
    } else {
      i := n - 1;
    }
  }
}
