/** What transactions do, said of their operations and events themselves: which entries they leave, what is
    charged and in which order, and why they are refused. */
module TransactionLaws {
  import opened Bytes
  import opened StateLayers
  import opened Metering
  import opened Words
  import opened Transactions
  import Positional

  // ----------------------------------------------------------------- effects

  lemma {:induction false} AllEventsConcat(xs: seq<Operation>, ys: seq<Operation>)
    ensures AllEvents(xs + ys) == AllEvents(xs) + AllEvents(ys)
    decreases |ys|
  {
    if ys == [] {
      assert xs + ys == xs;
    } else {
      var n, all := |ys| - 1, xs + ys;
      AllEventsConcat(xs, ys[..n]);
      assert all[..|all| - 1] == xs + ys[..n] && all[|all| - 1] == ys[n];
    }
  }

  lemma AllEventsOne(op: Operation)
    ensures AllEvents([op]) == op.events
  {
    assert [op][..0] == [];
  }

  lemma {:induction false} AvoidedByAll(ops: seq<Operation>, key: Key)
    requires forall m, k | 0 <= m < |ops| && 0 <= k < |ops[m].events| :: Avoids(ops[m].events[k], key)
    ensures forall e | e in AllEvents(ops) :: Avoids(e, key)
    decreases |ops|
  {
    if ops != [] {
      var n := |ops| - 1;
      AvoidedByAll(ops[..n], key);
      assert forall e | e in ops[n].events :: Avoids(e, key);
    }
  }

  lemma {:induction false} LastNamingIs(before: seq<Event>, e: Event, after: seq<Event>, key: Key)
    requires !Avoids(e, key) && forall x | x in after :: Avoids(x, key)
    ensures LastNaming(before + [e] + after, key) == Some(e)
    decreases |after|
  {
    var all := before + [e] + after;
    if after == [] {
      assert all[|all| - 1] == e;
    } else {
      var n := |after| - 1;
      LastNamingIs(before, e, after[..n], key);
      assert all[..|all| - 1] == before + [e] + after[..n] && all[|all| - 1] == after[n];
    }
  }

  /** Operation i's events, with what comes before and after event j. */
  lemma CutAt(ops: seq<Operation>, i: nat, j: nat)
    requires i < |ops| && j < |ops[i].events|
    ensures AllEvents(ops) == AllEvents(ops[..i]) + ops[i].events[..j] + [ops[i].events[j]] +
                              (ops[i].events[j + 1..] + AllEvents(ops[i + 1..]))
  {
    hide AllEvents;
    var es := ops[i].events;
    assert ops == ops[..i] + ([ops[i]] + ops[i + 1..]);
    AllEventsConcat(ops[..i], [ops[i]] + ops[i + 1..]);
    AllEventsConcat([ops[i]], ops[i + 1..]);
    AllEventsOne(ops[i]);
    assert es == es[..j] + [es[j]] + es[j + 1..];
  }

  /** A transaction that is not reverted leaves in an entry what the last event of its operations that names
      the entry put there, or nothing if that event removed it. */
  lemma LastEventStays(s: State, tx: Transaction, i: nat, j: nat)
    requires i < |tx.operations| && j < |tx.operations[i].events| && !tx.operations[i].events[j].Spend?
    requires forall k | j < k < |tx.operations[i].events| ::
      tx.operations[i].events[k].Spend? || tx.operations[i].events[k].key != tx.operations[i].events[j].key
    requires forall m, k | i < m < |tx.operations| && 0 <= k < |tx.operations[m].events| ::
      tx.operations[m].events[k].Spend? || tx.operations[m].events[k].key != tx.operations[i].events[j].key
    ensures var e := tx.operations[i].events[j];
      Lookup(After(s, tx, false), e.key) == if e.Remove? then None else Some(e.value)
  {
    var ops := tx.operations;
    var e, es := ops[i].events[j], ops[i].events;
    var rest := ops[i + 1..];
    CutAt(ops, i, j);
    hide Effects, AllEvents, LastNaming, NonceAccount, WithNonce;
    AvoidedByAll(rest, e.key);
    var after := es[j + 1..] + AllEvents(rest);
    forall x | x in after
      ensures Avoids(x, e.key)
    {
      if x in es[j + 1..] {
        var k :| 0 <= k < |es[j + 1..]| && es[j + 1..][k] == x;
        assert es[j + 1 + k] == x;
      }
    }
    LastNamingIs(AllEvents(ops[..i]) + es[..j], e, after, e.key);
    EffectsAt(WithNonce(s, NonceAccount(tx), tx.nonce), AllEvents(ops), e.key);
  }

  /** And it leaves every entry alone that none of them names, but for its nonce. */
  lemma UnnamedStays(s: State, tx: Transaction, key: Key)
    requires forall m, k | 0 <= m < |tx.operations| && 0 <= k < |tx.operations[m].events| ::
      tx.operations[m].events[k].Spend? || tx.operations[m].events[k].key != key
    requires key != NonceKey(NonceAccount(tx))
    ensures Lookup(After(s, tx, false), key) == Lookup(s, key)
  {
    hide Effects, AllEvents, NonceAccount, NonceKey;
    AvoidedByAll(tx.operations, key);
    EffectsAvoid(WithNonce(s, NonceAccount(tx), tx.nonce), AllEvents(tx.operations), key);
  }

  // ----------------------------------------------------------------- charges

  /** How many events the first i operations have. */
  function Offset(ops: seq<Operation>, i: nat): nat
    requires i <= |ops|
  {
    if i == 0 then 0 else Offset(ops, i - 1) + |ops[i - 1].events|
  }

  lemma {:induction false} OffsetIs(ops: seq<Operation>, i: nat)
    requires i <= |ops|
    ensures |AllEvents(ops[..i])| == Offset(ops, i)
  {
    if i > 0 {
      OffsetIs(ops, i - 1);
      assert ops[..i][..i - 1] == ops[..i - 1];
    }
  }

  lemma {:induction false} OffsetPrefix(ops: seq<Operation>, n: nat, i: nat)
    requires i <= n <= |ops|
    ensures Offset(ops[..n], i) == Offset(ops, i)
  {
    if i > 0 {
      OffsetPrefix(ops, n, i - 1);
    }
  }

  lemma EventAt(ops: seq<Operation>, i: nat, j: nat)
    requires i < |ops| && j < |ops[i].events|
    ensures Offset(ops, i) + j < |AllEvents(ops)| && AllEvents(ops)[Offset(ops, i) + j] == ops[i].events[j]
  {
    CutAt(ops, i, j);
    OffsetIs(ops, i);
    hide AllEvents, Offset;
    var first := AllEvents(ops[..i]) + ops[i].events[..j];
    assert AllEvents(ops)[|first|] == ops[i].events[j];
  }

  /** Event j of operation i is charged, if no operation before failed, and it is charged in its turn. */
  lemma ChargedInTurn(ops: seq<Operation>, i: nat, j: nat)
    requires i < |ops| && j < |ops[i].events| && forall m | 0 <= m < i :: ops[m].ok
    ensures var es := AllEvents(Executed(ops));
      Offset(ops, i) + j < |es| && es[Offset(ops, i) + j] == ops[i].events[j]
  {
    var n := FirstFailure(ops, i);
    ExecutedIs(ops, n);
    hide AllEvents, Offset, Executed;
    if n == |ops| {
      EventAt(ops, i, j);
    } else {
      EventAt(ops[..n + 1], i, j);
      OffsetPrefix(ops, n + 1, i);
    }
  }

  /** Nothing else is charged: the list ends with the first operation that fails, or with the last one. */
  lemma NothingElseCharged(ops: seq<Operation>, n: nat)
    requires n <= |ops| && (forall m | 0 <= m < n :: ops[m].ok) && (n < |ops| ==> !ops[n].ok)
    ensures |AllEvents(Executed(ops))| == Offset(ops, if n < |ops| then n + 1 else n)
  {
    ExecutedIs(ops, n);
    hide AllEvents, Offset, Executed;
    var ran := if n < |ops| then n + 1 else n;
    OffsetIs(ops, ran);
    assert ops[..|ops|] == ops;
  }

  lemma {:induction false} FirstFailure(ops: seq<Operation>, i: nat) returns (n: nat)
    requires i < |ops| && forall m | 0 <= m < i :: ops[m].ok
    ensures i <= n <= |ops| && (forall m | 0 <= m < n :: ops[m].ok) && (n < |ops| ==> !ops[n].ok)
    decreases |ops| - i
  {
    if !ops[i].ok {
      n := i;
    } else if i + 1 == |ops| {
      n := |ops|;
    } else {
      n := FirstFailure(ops, i + 1);
    }
  }

  /** The charges of a list of events, in order: a tick's worth of compute and the signed size, taken as an
      unsigned 64-bit number, for each write and removal; the ticks for each spending; none for an upload. */
  function Bill(es: seq<Event>): seq<Use> {
    if es == [] then []
    else
      var e := es[|es| - 1];
      Bill(es[..|es| - 1]) +
      if e.Spend? then [Compute(e.ticks)]
      else if e.Upload? then []
      else [Compute(1), Disk(e.bytes % 0x1_0000_0000_0000_0000)]
  }

  lemma {:induction false} ChargeAllConcat(cost: Resources, b: Books, us: seq<Use>, vs: seq<Use>)
    ensures ChargeAll(cost, b, us + vs) == ChargeAll(cost, ChargeAll(cost, b, us), vs)
    decreases |vs|
  {
    if vs == [] {
      assert us + vs == us;
    } else {
      hide Charge;
      var n, all := |vs| - 1, us + vs;
      ChargeAllConcat(cost, b, us, vs[..n]);
      assert all[..|all| - 1] == us + vs[..n] && all[|all| - 1] == vs[n];
    }
  }

  lemma {:induction false} BillIs(cost: Resources, b: Books, es: seq<Event>)
    ensures ChargeEvents(cost, b, es) == ChargeAll(cost, b, Bill(es))
    decreases |es|
  {
    if es != [] {
      var n := |es| - 1;
      BillIs(cost, b, es[..n]);
      LastCharges(cost, b, es);
      hide ChargeAll;
      ChargeAllConcat(cost, b, Bill(es[..n]), Bill(es)[|Bill(es[..n])|..]);
      assert Bill(es) == Bill(es[..n]) + Bill(es)[|Bill(es[..n])|..];
    }
  }

  lemma LastCharges(cost: Resources, b: Books, es: seq<Event>)
    requires es != []
    ensures Bill(es[..|es| - 1]) <= Bill(es)
    ensures EventUses(es[|es| - 1]) == Bill(es)[|Bill(es[..|es| - 1])|..]
  {
  }

  /** The payer of a receipt pays for the checks, the nonce entry, the size and the operations that ran, in this
      order and nothing else. */
  lemma WholeBill(cost: Resources, left: Resources, tx: Transaction, authority: Authorities)
    requires Entered(cost, left, tx, authority).1 == Success
    ensures Finished(cost, left, tx, authority) ==
      ChargeAll(cost, Books(left, tx.resourceLimit),
                Bill(ChecksOf(tx, authority)) + [Disk(tx.nonceBytes % 0x1_0000_0000_0000_0000), Network(tx.size)] +
                Bill(AllEvents(Executed(tx.operations))))
  {
    hide Charge, ChargeAll, ChargeEvents, ChecksOf, AllEvents, Executed, Bill;
    var b, size := Books(left, tx.resourceLimit), tx.nonceBytes % 0x1_0000_0000_0000_0000;
    var checks, entry := Bill(ChecksOf(tx, authority)), [Disk(size), Network(tx.size)];
    var ran := AllEvents(Executed(tx.operations));
    BillIs(cost, b, ChecksOf(tx, authority));
    BillIs(cost, Entered(cost, left, tx, authority).0, ran);
    TwoCharges(cost, ChargeAll(cost, b, checks), Disk(size), Network(tx.size));
    ChargeAllConcat(cost, b, checks, entry);
    ChargeAllConcat(cost, b, checks + entry, Bill(ran));
  }

  // --------------------------------------------------------------- admission

  /** Which events the checks have; a payee counts if it is not all zeros. */
  lemma ChecksAre(tx: Transaction, authority: Authorities)
    ensures var hasPayee := exists i | 0 <= i < |tx.payee| :: tx.payee[i] != 0;
      ChecksOf(tx, authority) ==
      if tx.resourceLimit > 1_000_000_000 then []
      else if authority.payer.verdict == Granted && hasPayee then
        [Spend(1)] + authority.payer.events + ([Spend(1)] + authority.payee.events)
      else [Spend(1)] + authority.payer.events
  {
  }

  /** A transaction is let in if and only if its limit is at most a thousand million, its payer and its payee, if
      it has one, are granted, and its nonce is the next one of the payee, or else of the payer, modulo 2^64; and
      the first of these that fails is the reason for the refusal. */
  lemma AdmittedExactly(s: State, tx: Transaction, authority: Authorities)
    requires Sound(authority)
    ensures var hasPayee := exists i | 0 <= i < |tx.payee| :: tx.payee[i] != 0;
      var next := (NonceOf(s, if hasPayee then tx.payee else tx.payer) + 1) % 0x1_0000_0000_0000_0000;
      var payer, payee := authority.payer.verdict, if hasPayee then authority.payee.verdict else Granted;
      var code, small := Refusal(s, tx, authority), tx.resourceLimit <= 1_000_000_000;
      && (Admissible(s, tx, authority) <==> code == Success)
      && (code == Success <==> small && payer == Granted && payee == Granted && tx.nonce == next)
      && (!small ==> code == InsufficientResources)
      && (small && payer == Denied ==> code == AuthorizationFailure)
      && (small && payer.Failed? ==> code == payer.code)
      && (small && payer == Granted && payee == Denied ==> code == AuthorizationFailure)
      && (small && payer == Granted && payee.Failed? ==> code == payee.code)
      && (small && payer == Granted && payee == Granted && tx.nonce != next ==> code == InvalidNonce)
  {
    hide NonceOf;
  }

  // ------------------------------------------------------------------ blocks

  /** A block's transactions are applied one after the other, each to the state and with the resources that the
      ones before left. */
  lemma OneByOne(cost: Resources, left: Resources, s: State, txs: seq<Transaction>, authority: nat -> Authorities,
                 n: nat)
    requires n < |txs|
    ensures Walk(cost, left, s, [], authority) == Some((s, left))
    ensures var before := Walk(cost, left, s, txs[..n], authority);
            var after := Walk(cost, left, s, txs[..n + 1], authority);
            var tx, a := txs[n], authority(n);
      if before == None then after == None
      else
        var t := Effects(before.value.0, ChecksOf(tx, a));
        if Admissible(t, tx, a) && Entered(cost, before.value.1, tx, a).1 == Success then
          after == Some((After(t, tx, exists op | op in tx.operations :: !op.ok),
                         Finished(cost, before.value.1, tx, a).left))
        else after == None
  {
    hide Effects, ChecksOf, After, Admissible, Entered, Finished;
    assert txs[..n + 1][..n] == txs[..n];
  }

  /** A block either has a receipt for every transaction, which tells whether it reverted, or stops at the first
      transaction without one. */
  lemma BlockOutcome(cost: Resources, left: Resources, s: State, txs: seq<Transaction>, authority: nat -> Authorities,
                     r: Result<BlockReceipt>, after: State)
    requires Applied(cost, left, s, txs, authority, r, after)
    ensures !r.Raised?
    ensures r.Expected? ==>
      && Walk(cost, left, s, txs, authority).Some? && Walk(cost, left, s, txs, authority).value.0 == after
      && |r.value.receipts| == |txs|
      && (forall i | 0 <= i < |txs| :: r.value.receipts[i].reverted <==> exists op | op in txs[i].operations :: !op.ok)
      && r.value.used == r.value.charged == TotalUsed(r.value.receipts)
    ensures r.Unexpected? ==> exists n | 0 <= n < |txs| ::
      && Walk(cost, left, s, txs[..n], authority).Some? && Walk(cost, left, s, txs[..n + 1], authority) == None
      && var before := Walk(cost, left, s, txs[..n], authority).value;
         after == Leftover(before.0, txs[n], authority(n)) &&
         r.code == LeftoverCode(cost, before.1, before.0, txs[n], authority(n))
  {
    hide Leftover, LeftoverCode, WalkStep;
    if r.Unexpected? {
      ReceiptsStop(cost, left, s, txs, authority);
    }
  }

  lemma {:induction false} ReceiptsStop(
      cost: Resources, left: Resources, s: State, txs: seq<Transaction>, authority: nat -> Authorities)
    ensures var n := Receipts(cost, left, s, txs, authority);
      n < |txs| ==> Walk(cost, left, s, txs[..n + 1], authority) == None
    decreases |txs|
  {
    hide WalkStep;
    if Walk(cost, left, s, txs, authority) == None {
      var m := |txs| - 1;
      ReceiptsStop(cost, left, s, txs[..m], authority);
      var n := Receipts(cost, left, s, txs[..m], authority);
      if n < m {
        assert txs[..m][..n + 1] == txs[..n + 1];
      } else {
        assert txs[..n + 1] == txs;
      }
    }
  }

  /** A transaction without a receipt leaves what its checks did, and its nonce if it was let in. */
  lemma FailureLeaves(cost: Resources, left: Resources, s: State, tx: Transaction, authority: Authorities)
    requires Sound(authority)
    ensures var t := Effects(s, ChecksOf(tx, authority));
      if Refusal(t, tx, authority) == Success then
        Leftover(s, tx, authority) == WithNonce(t, NonceAccount(tx), tx.nonce) &&
        LeftoverCode(cost, left, s, tx, authority) == Entered(cost, left, tx, authority).1
      else
        Leftover(s, tx, authority) == t && LeftoverCode(cost, left, s, tx, authority) == Refusal(t, tx, authority)
  {
    RefusalOf(Checked(s, tx, authority), tx, authority);
    hide Effects, ChecksOf, Admissible, Refusal, Entered, WithNonce, NonceAccount;
  }

  /** The totals of a block add up its receipts. */
  lemma TotalsAdd(rs: seq<Receipt>, r: Receipt)
    ensures TotalUsed([]) == Resources(0, 0, 0) && TotalCharged([]) == 0
    ensures var a, b := TotalUsed(rs), TotalUsed(rs + [r]);
      && b.disk == a.disk + r.used.disk && b.network == a.network + r.used.network
      && b.compute == a.compute + r.used.compute
      && TotalCharged(rs + [r]) == TotalCharged(rs) + r.resourceUsed
  {
    assert (rs + [r])[..|rs|] == rs;
  }

  // ------------------------------------------------------------------ nonces

  lemma {:induction false} LittleAt(n: nat, size: nat, i: nat)
    requires i < size
    ensures Pow256(i) > 0 && Little(n, size)[i] == n / Pow256(i) % 256
  {
    PowPositive(i);
    if i > 0 {
      LittleAt(n / 256, size - 1, i - 1);
      DivideTwice(n, Pow256(i - 1));
    }
  }

  lemma {:induction false} PowPositive(i: nat)
    ensures Pow256(i) > 0
  {
    if i > 0 {
      PowPositive(i - 1);
    }
  }

  lemma DivideTwice(n: nat, p: nat)
    requires p > 0
    ensures n / 256 / p == n / (256 * p)
  {
    var q := n / 256 / p;
    var r, t := n / 256 - p * q, n % 256;
    assert n == (256 * r + t) + (256 * p) * q;
    Positional.ModDigit(256 * p, 256 * r + t, q);
  }

  /** A nonce is kept in the account's entry as eight bytes, the lowest first; an account without an entry has
      nonce zero. */
  lemma NonceEntry(s: State, account: Account, nonce: nat, key: Key)
    ensures var t := WithNonce(s, account, nonce);
      && (key != NonceKey(account) ==> Lookup(t, key) == Lookup(s, key))
      && NonceKey(account) in t && |t[NonceKey(account)]| == 8
      && (forall i | 0 <= i < 8 :: Pow256(i) > 0 && t[NonceKey(account)][i] == nonce / Pow256(i) % 256)
    ensures NonceKey(account) !in s ==> NonceOf(s, account) == 0
  {
    forall i | 0 <= i < 8 { LittleAt(nonce, 8, i); }
  }
}
