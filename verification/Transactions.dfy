/** Applying transactions and blocks: nonces, metering, and the temporary node that is
    squashed on success and dropped on failure. What a program does to the state and to
    the meter is an arbitrary list of events. */
module Transactions {
  import opened Bytes
  import opened StateLayers
  import opened Metering
  import opened Words
  import Deltas = StateDelta

  type Account = Bytes
  type Delta = Deltas.StateDelta

  // ------------------------------------------------------------------ nonces

  /** n as little-endian bytes. */
  function Little(n: nat, size: nat): (bs: Bytes)
    ensures |bs| == size
  {
    if size == 0 then [] else [n % 256] + Little(n / 256, size - 1)
  }

  function FromLittle(bs: Bytes): nat {
    if bs == [] then 0 else bs[0] + 256 * FromLittle(bs[1..])
  }

  function Pow256(k: nat): nat {
    if k == 0 then 1 else 256 * Pow256(k - 1)
  }

  lemma {:induction false} LittleRoundTrip(n: nat, size: nat)
    requires n < Pow256(size)
    ensures FromLittle(Little(n, size)) == n
  {
    if size > 0 {
      LittleRoundTrip(n / 256, size - 1);
      assert Little(n, size)[1..] == Little(n / 256, size - 1);
    }
  }

  lemma EightBytes()
    ensures Pow256(8) == U64
  {
    assert Pow256(4) == 0x1_0000_0000;
  }

  /** The object space of nonces, in front of the account. */
  function NonceKey(account: Account): Key {
    [1, 0, 0, 0] + account
  }

  /** An account without an entry has nonce 0. */
  function NonceOf(s: State, account: Account): nat {
    var entry := Lookup(s, NonceKey(account));
    if entry.Some? then FromLittle(entry.value) else 0
  }

  function WithNonce(s: State, account: Account, nonce: nat): State {
    s[NonceKey(account) := Little(nonce, 8)]
  }

  lemma NonceWritten(s: State, account: Account, nonce: nat)
    requires nonce < U64
    ensures NonceOf(WithNonce(s, account, nonce), account) == nonce
  {
    EightBytes();
    LittleRoundTrip(nonce, 8);
  }

  // ------------------------------------------------------------------ events

  /** What a program does: it spends ticks, and writes or removes objects, for which the
      state reports a signed size. An upload writes without being charged. */
  datatype Event =
    | Spend(ticks: nat)
    | Put(key: Key, value: Value, bytes: int)
    | Remove(key: Key, bytes: int)
    | Upload(key: Key, value: Value)

  datatype Operation = Operation(events: seq<Event>, ok: bool)

  function Effect(s: State, e: Event): State {
    match e
    case Spend(_) => s
    case Put(key, value, _) => s[key := value]
    case Remove(key, _) => s - {key}
    case Upload(key, value) => s[key := value]
  }

  function Effects(s: State, es: seq<Event>): State {
    if es == [] then s else Effect(Effects(s, es[..|es| - 1]), es[|es| - 1])
  }

  function AllEvents(ops: seq<Operation>): seq<Event> {
    if ops == [] then [] else AllEvents(ops[..|ops| - 1]) + ops[|ops| - 1].events
  }

  lemma {:induction false} EffectsConcat(s: State, es: seq<Event>, fs: seq<Event>)
    ensures Effects(s, es + fs) == Effects(Effects(s, es), fs)
    decreases |fs|
  {
    if fs == [] {
      assert es + fs == es;
    } else {
      hide Effect;
      var n := |fs| - 1;
      EffectsConcat(s, es, fs[..n]);
      assert (es + fs)[..|es| + n] == es + fs[..n];
    }
  }

  /** What an event costs; refusals do not stop it. */
  function EventUses(e: Event): seq<Use> {
    match e
    case Spend(ticks) => [Compute(ticks)]
    case Put(_, _, bytes) => [Compute(1), Disk(Unsigned(bytes))]
    case Remove(_, bytes) => [Compute(1), Disk(Unsigned(bytes))]
    case Upload(_, _) => []
  }

  /** The books after a list of events. */
  function ChargeEvents(cost: Resources, b: Books, es: seq<Event>): Books {
    if es == [] then b else ChargeAll(cost, ChargeEvents(cost, b, es[..|es| - 1]), EventUses(es[|es| - 1]))
  }

  lemma {:induction false} ChargeEventsConcat(cost: Resources, b: Books, es: seq<Event>, fs: seq<Event>)
    ensures ChargeEvents(cost, b, es + fs) == ChargeEvents(cost, ChargeEvents(cost, b, es), fs)
    decreases |fs|
  {
    if fs == [] {
      assert es + fs == es;
    } else {
      hide ChargeAll, EventUses;
      var n, all := |fs| - 1, es + fs;
      ChargeEventsConcat(cost, b, es, fs[..n]);
      assert all[..|all| - 1] == es + fs[..n] && all[|all| - 1] == fs[n];
    }
  }

  lemma {:induction false} EventsBalance(cost: Resources, start: Resources, b: Books, es: seq<Event>)
    requires Within(b.left, start)
    ensures var c := ChargeEvents(cost, b, es);
            && Within(c.left, start)
            && c.funds + Weighted(cost, Minus(start, c.left)) == b.funds + Weighted(cost, Minus(start, b.left))
    decreases |es|
  {
    hide ChargeAll, Weighted, EventUses;
    if es != [] {
      var n := |es| - 1;
      EventsBalance(cost, start, b, es[..n]);
      ChargesBalance(cost, start, ChargeEvents(cost, b, es[..n]), EventUses(es[n]));
    }
  }

  /** The operations that are run: up to the first that fails, and including it. */
  function Executed(ops: seq<Operation>): seq<Operation> {
    if ops == [] then [] else if ops[0].ok then [ops[0]] + Executed(ops[1..]) else [ops[0]]
  }

  lemma {:induction false} ExecutedIs(ops: seq<Operation>, n: nat)
    requires n <= |ops| && (forall j | 0 <= j < n :: ops[j].ok)
    ensures n == |ops| ==> Executed(ops) == ops
    ensures n < |ops| && !ops[n].ok ==> Executed(ops) == ops[..n + 1]
  {
    if n > 0 {
      ExecutedIs(ops[1..], n - 1);
      assert ops == [ops[0]] + ops[1..];
    }
  }

  /** Events leave an entry alone that they do not name. */
  predicate Avoids(e: Event, key: Key) {
    e.Spend? || e.key != key
  }

  lemma {:induction false} EffectsAvoid(s: State, es: seq<Event>, key: Key)
    requires forall e | e in es :: Avoids(e, key)
    ensures Lookup(Effects(s, es), key) == Lookup(s, key)
    decreases |es|
  {
    if es != [] {
      EffectsAvoid(s, es[..|es| - 1], key);
      assert Avoids(es[|es| - 1], key);
    }
  }

  /** The last event that names the entry. */
  function LastNaming(es: seq<Event>, key: Key): Option<Event> {
    if es == [] then None
    else if Avoids(es[|es| - 1], key) then LastNaming(es[..|es| - 1], key)
    else Some(es[|es| - 1])
  }

  /** What an event leaves in the entry that it names. */
  function Leaves(e: Event): Option<Value> {
    if e.Put? || e.Upload? then Some(e.value) else None
  }

  /** Events leave in an entry what the last one that names it leaves. */
  lemma {:induction false} EffectsAt(s: State, es: seq<Event>, key: Key)
    ensures var last := LastNaming(es, key);
            Lookup(Effects(s, es), key) == if last.Some? then Leaves(last.value) else Lookup(s, key)
    decreases |es|
  {
    if es != [] {
      EffectsAt(s, es[..|es| - 1], key);
    }
  }

  lemma {:induction false} NamedSomewhere(es: seq<Event>, key: Key)
    ensures LastNaming(es, key).Some? <==> exists e | e in es :: !Avoids(e, key)
    decreases |es|
  {
    if es != [] {
      var n := |es| - 1;
      NamedSomewhere(es[..n], key);
      assert forall e | e in es :: e in es[..n] || e == es[n];
      assert es[n] in es;
    }
  }

  /** Every entry but one that the events name ends with what it had in s. */
  predicate Restores(s: State, es: seq<Event>, except: Key) {
    forall e | e in es && !e.Spend? && e.key != except ::
      var last := LastNaming(es, e.key);
      last.Some? ==> Leaves(last.value) == Lookup(s, e.key)
  }

  lemma RestoresIs(s: State, es: seq<Event>, except: Key)
    ensures Restores(s, es, except) <==> forall key | key != except :: Lookup(Effects(s, es), key) == Lookup(s, key)
  {
    hide Effects, LastNaming, Leaves;
    forall key
      ensures var last := LastNaming(es, key);
              Lookup(Effects(s, es), key) == if last.Some? then Leaves(last.value) else Lookup(s, key)
      ensures LastNaming(es, key).Some? <==> exists e | e in es :: !Avoids(e, key)
    {
      EffectsAt(s, es, key);
      NamedSomewhere(es, key);
    }
  }

  // ------------------------------------------------------------ transactions

  datatype Verdict = Granted | Denied | Failed(code: Code)

  /** What checking an account does and says. A user account is checked by its signatures, without
      any event; a program account by running the program on the block's state. */
  datatype Authority = Authority(events: seq<Event>, verdict: Verdict)

  /** A check each for payer and payee. One account in both roles is checked twice, and a program may
      do and answer something else the second time. */
  datatype Authorities = Authorities(payer: Authority, payee: Authority)

  /** A failed check carries an error. */
  predicate Sound(a: Authorities) {
    a.payer.verdict != Failed(Success) && a.payee.verdict != Failed(Success)
  }

  /** nonceBytes is the size that the state reports when it stores the nonce. */
  datatype Transaction = Transaction(
    payer: Account, payee: Account, nonce: nat, resourceLimit: nat, size: nat, nonceBytes: int,
    operations: seq<Operation>)

  datatype Receipt = Receipt(reverted: bool, resourceLimit: nat, resourceUsed: nat, used: Resources)

  datatype Result<T> = Unexpected(code: Code) | Expected(value: T) | Raised(message: string)

  predicate UsesPayee(tx: Transaction) {
    exists i | 0 <= i < |tx.payee| :: tx.payee[i] != 0
  }

  function NonceAccount(tx: Transaction): Account {
    if UsesPayee(tx) then tx.payee else tx.payer
  }

  const ACCOUNT_RESOURCES: nat := 1_000_000_000

  /** A check costs one tick, and what the program spends. */
  function CheckOf(a: Authority): seq<Event> {
    [Spend(1)] + a.events
  }

  /** The checks that are made: none above the account's resources, and the payee's only after the payer's. */
  function ChecksOf(tx: Transaction, authority: Authorities): seq<Event> {
    if tx.resourceLimit > ACCOUNT_RESOURCES then []
    else if authority.payer.verdict == Granted && UsesPayee(tx) then
      CheckOf(authority.payer) + CheckOf(authority.payee)
    else CheckOf(authority.payer)
  }

  /** The state that the checks leave; nothing takes it back. */
  function Checked(s: State, tx: Transaction, authority: Authorities): State {
    Effects(s, ChecksOf(tx, authority))
  }

  /** The accounts of a transaction are users. */
  predicate UserAccounts(authority: Authorities) {
    authority.payer.events == [] && authority.payee.events == []
  }

  lemma UsersWriteNothing(s: State, tx: Transaction, authority: Authorities)
    requires UserAccounts(authority)
    ensures Checked(s, tx, authority) == s
  {
    hide UsesPayee, Effects;
    var tick := [Spend(1)];
    assert tick + [] == tick;
    TickOnly(s);
    EffectsConcat(s, tick, tick);
    NoEffects(s);
  }

  lemma TickOnly(s: State)
    ensures Effects(s, [Spend(1)]) == s
  {
    assert [Spend(1)][..0] == [];
  }

  lemma NoEffects(s: State)
    ensures Effects(s, []) == s
  {
  }

  /** The state after a transaction that has a receipt, from the state that its checks left. */
  function After(s: State, tx: Transaction, reverted: bool): State {
    var charged := WithNonce(s, NonceAccount(tx), tx.nonce);
    if reverted then charged else Effects(charged, AllEvents(tx.operations))
  }

  /** A reverted transaction changes the nonce entry and nothing else ... */
  lemma RevertedChangesNonceOnly(s: State, tx: Transaction, key: Key)
    requires tx.nonce < U64
    ensures key != NonceKey(NonceAccount(tx)) ==> Lookup(After(s, tx, true), key) == Lookup(s, key)
    ensures NonceOf(After(s, tx, true), NonceAccount(tx)) == tx.nonce
  {
    NonceWritten(s, NonceAccount(tx), tx.nonce);
  }

  /** ... once its checks are done. Everything else is as before them if and only if each entry that they
      name ends with what it had, which holds for user accounts. */
  lemma RevertedLeaves(s: State, tx: Transaction, authority: Authorities)
    requires tx.nonce < U64
    ensures var t, nonce := Checked(s, tx, authority), NonceKey(NonceAccount(tx));
      && (UserAccounts(authority) ==> t == s)
      && ((forall key | key != nonce :: Lookup(After(t, tx, true), key) == Lookup(s, key)) <==>
          Restores(s, ChecksOf(tx, authority), nonce))
  {
    var t, nonce := Checked(s, tx, authority), NonceKey(NonceAccount(tx));
    RestoresIs(s, ChecksOf(tx, authority), nonce);
    hide Effects, After, NonceOf, ChecksOf, Restores;
    if UserAccounts(authority) {
      UsersWriteNothing(s, tx, authority);
    }
    forall key
      ensures key != nonce ==> Lookup(After(t, tx, true), key) == Lookup(t, key)
    {
      RevertedChangesNonceOnly(t, tx, key);
    }
  }

  /** What the check of a program account writes stays, although the transaction reverts. */
  lemma CheckStays(account: Account, key: Key, value: Value)
    requires key != NonceKey(account)
    ensures var tx := Transaction(account, [], 1, 0, 0, 0, [Operation([], false)]);
            var authority := Authorities(Authority([Put(key, value, 0)], Granted), Authority([], Granted));
            var t := Checked(map[], tx, authority);
      && Admissible(t, tx, authority) && Reverts(tx)
      && Lookup(After(t, tx, true), key) == Some(value)
  {
    var tx := Transaction(account, [], 1, 0, 0, 0, [Operation([], false)]);
    var authority := Authorities(Authority([Put(key, value, 0)], Granted), Authority([], Granted));
    var t := Checked(map[], tx, authority);
    var es := [Spend(1)] + [Put(key, value, 0)];
    assert ChecksOf(tx, authority) == es && NonceAccount(tx) == account;
    assert Reverts(tx) by { assert Operation([], false) in tx.operations; }
    EffectsAt(map[], es, key);
    EffectsAvoid(map[], es, NonceKey(account));
    RevertedChangesNonceOnly(t, tx, key);
  }

  /** Programs write only to their own spaces; so the nonce is used up either way. */
  lemma NonceUsedUp(s: State, tx: Transaction, reverted: bool)
    requires tx.nonce < U64
    requires forall e | e in AllEvents(tx.operations) :: Avoids(e, NonceKey(NonceAccount(tx)))
    ensures NonceOf(After(s, tx, reverted), NonceAccount(tx)) == tx.nonce
  {
    hide Effects;
    var charged := WithNonce(s, NonceAccount(tx), tx.nonce);
    NonceWritten(s, NonceAccount(tx), tx.nonce);
    EffectsAvoid(charged, AllEvents(tx.operations), NonceKey(NonceAccount(tx)));
  }

  /** The books once the nonce entry and the size are paid for, if they can be. */
  function Entered(cost: Resources, left: Resources, tx: Transaction, authority: Authorities): (Books, Code) {
    var checked := ChargeEvents(cost, Books(left, tx.resourceLimit), ChecksOf(tx, authority));
    var stored := Charge(cost, checked, Disk(Unsigned(tx.nonceBytes)));
    if stored.1 != Success then stored else Charge(cost, stored.0, Network(tx.size))
  }

  /** The books at the end of a transaction that yields a receipt. */
  function Finished(cost: Resources, left: Resources, tx: Transaction, authority: Authorities): Books {
    ChargeEvents(cost, Entered(cost, left, tx, authority).0, AllEvents(Executed(tx.operations)))
  }

  /** Failed operations and ignored refusals included, the payer owes the weighted use, and no more than the limit. */
  lemma FinishedBalances(cost: Resources, left: Resources, tx: Transaction, authority: Authorities)
    ensures var b := Finished(cost, left, tx, authority);
            && Within(b.left, left) && b.funds <= tx.resourceLimit
            && tx.resourceLimit - b.funds == Weighted(cost, Minus(left, b.left))
  {
    hide Charge, ChargeAll, ChargeEvents, Weighted, AllEvents, ChecksOf, Unsigned;
    var b := Books(left, tx.resourceLimit);
    EventsBalance(cost, left, b, ChecksOf(tx, authority));
    var checked := ChargeEvents(cost, b, ChecksOf(tx, authority));
    ChargeBalances(cost, left, checked, Disk(Unsigned(tx.nonceBytes)));
    var stored := Charge(cost, checked, Disk(Unsigned(tx.nonceBytes)));
    ChargeBalances(cost, left, stored.0, Network(tx.size));
    EventsBalance(cost, left, Entered(cost, left, tx, authority).0, AllEvents(Executed(tx.operations)));
    NothingUsed(cost);
  }

  /** Whether a transaction is let in, given the state that its checks left. */
  predicate Admissible(s: State, tx: Transaction, authority: Authorities) {
    && tx.resourceLimit <= ACCOUNT_RESOURCES
    && authority.payer.verdict == Granted
    && (UsesPayee(tx) ==> authority.payee.verdict == Granted)
    && (NonceOf(s, NonceAccount(tx)) + 1) % U64 == tx.nonce
  }

  /** Why a transaction is refused before its nonce is written. */
  function Refusal(s: State, tx: Transaction, authority: Authorities): Code {
    if tx.resourceLimit > ACCOUNT_RESOURCES then InsufficientResources
    else if authority.payer.verdict != Granted then CodeOf(authority.payer.verdict)
    else if UsesPayee(tx) && authority.payee.verdict != Granted then CodeOf(authority.payee.verdict)
    else if (NonceOf(s, NonceAccount(tx)) + 1) % U64 != tx.nonce then InvalidNonce
    else Success
  }

  function CodeOf(v: Verdict): Code {
    match v
    case Granted => Success
    case Denied => AuthorizationFailure
    case Failed(code) => code
  }

  /** Two's complement: the meter takes the signed size as an unsigned number. */
  function Unsigned(n: int): nat {
    n % U64
  }

  /** A transaction cannot be applied again right after it got its receipt. */
  lemma ReplayRejected(s: State, tx: Transaction, reverted: bool, authority: Authorities)
    requires tx.nonce < U64
    requires forall e | e in AllEvents(tx.operations) :: Avoids(e, NonceKey(NonceAccount(tx)))
    ensures !Admissible(After(s, tx, reverted), tx, authority)
  {
    hide After, NonceOf, AllEvents;
    NonceUsedUp(s, tx, reverted);
  }

  // ------------------------------------------------------------------ blocks

  const DEFAULT_LIMITS: Limits :=
    Limits(Resources(409_600, 1_048_576, 100_000_000), Resources(10, 5, 1))

  const GENESIS_KEY: Key := [0, 0, 0, 0]

  datatype BlockReceipt = BlockReceipt(receipts: seq<Receipt>, used: Resources, charged: Resources)

  function TotalUsed(rs: seq<Receipt>): Resources {
    if rs == [] then Resources(0, 0, 0) else Sum(TotalUsed(rs[..|rs| - 1]), rs[|rs| - 1].used)
  }

  function TotalCharged(rs: seq<Receipt>): nat {
    if rs == [] then 0 else TotalCharged(rs[..|rs| - 1]) + rs[|rs| - 1].resourceUsed
  }

  predicate Reverts(tx: Transaction) {
    exists op | op in tx.operations :: !op.ok
  }

  /** The state and the resources left after a block, if every transaction yields a receipt. */
  function Walk(cost: Resources, left: Resources, s: State, txs: seq<Transaction>,
                authority: nat -> Authorities):
      Option<(State, Resources)>
  {
    if txs == [] then Some((s, left))
    else
      var n := |txs| - 1;
      var before := Walk(cost, left, s, txs[..n], authority);
      if before == None then None
      else WalkStep(cost, before.value.1, before.value.0, txs[n], authority(n))
  }

  function WalkStep(cost: Resources, left: Resources, s: State, tx: Transaction, authority: Authorities):
      Option<(State, Resources)>
  {
    var t := Checked(s, tx, authority);
    if !Admissible(t, tx, authority) || Entered(cost, left, tx, authority).1 != Success then None
    else Some((After(t, tx, Reverts(tx)), Finished(cost, left, tx, authority).left))
  }

  lemma WalkNext(
      cost: Resources, left: Resources, s: State, txs: seq<Transaction>, authority: nat -> Authorities, i: nat)
    requires i < |txs| && Walk(cost, left, s, txs[..i], authority).Some?
    ensures var before := Walk(cost, left, s, txs[..i], authority).value;
      Walk(cost, left, s, txs[..i + 1], authority) == WalkStep(cost, before.1, before.0, txs[i], authority(i))
  {
    hide WalkStep;
    assert txs[..i + 1][..i] == txs[..i];
  }

  /** How many transactions yield a receipt before one does not. */
  function Receipts(cost: Resources, left: Resources, s: State, txs: seq<Transaction>,
                    authority: nat -> Authorities):
      (n: nat)
    ensures n <= |txs| && Walk(cost, left, s, txs[..n], authority).Some?
  {
    if Walk(cost, left, s, txs, authority).Some? then
      assert txs[..|txs|] == txs;
      |txs|
    else
      var m := |txs| - 1;
      var n := Receipts(cost, left, s, txs[..m], authority);
      assert txs[..m][..n] == txs[..n];
      n
  }

  lemma {:induction false} ReceiptsAre(
      cost: Resources, left: Resources, s: State, txs: seq<Transaction>, authority: nat -> Authorities, k: nat)
    requires k < |txs| && Walk(cost, left, s, txs[..k], authority).Some?
    requires Walk(cost, left, s, txs[..k + 1], authority) == None
    ensures Walk(cost, left, s, txs, authority) == None && Receipts(cost, left, s, txs, authority) == k
    decreases |txs|
  {
    hide WalkStep;
    var n := |txs| - 1;
    if k == n {
      assert txs[..k + 1] == txs;
      assert txs[..k][..k] == txs[..k];
    } else {
      assert txs[..n][..k] == txs[..k] && txs[..n][..k + 1] == txs[..k + 1];
      ReceiptsAre(cost, left, s, txs[..n], authority, k);
    }
  }

  /** What a transaction without a receipt leaves: what its checks wrote, and its nonce if only a charge was refused. */
  function Leftover(s: State, tx: Transaction, authority: Authorities): State {
    var t := Checked(s, tx, authority);
    if Admissible(t, tx, authority) then After(t, tx, true) else t
  }

  function LeftoverCode(cost: Resources, left: Resources, s: State, tx: Transaction, authority: Authorities):
      Code
  {
    var t := Checked(s, tx, authority);
    if Admissible(t, tx, authority) then Entered(cost, left, tx, authority).1 else Refusal(t, tx, authority)
  }

  // --------------------------------------------------------- nonces over runs

  /** What changes the state over many blocks: transactions that take their nonce, with or without a
      receipt, and anything else that programs do. */
  datatype Change = Took(tx: Transaction, checks: seq<Event>, reverted: bool) | Ran(events: seq<Event>)

  function Changed(s: State, c: Change): State {
    match c
    case Took(tx, checks, reverted) => After(Effects(s, checks), tx, reverted)
    case Ran(events) => Effects(s, events)
  }

  function ChangedAll(s: State, cs: seq<Change>): State {
    if cs == [] then s else Changed(ChangedAll(s, cs[..|cs| - 1]), cs[|cs| - 1])
  }

  /** Every nonce taken is the one that follows the account's. */
  predicate InOrder(s: State, cs: seq<Change>) {
    cs == [] ||
    (var n := |cs| - 1;
     InOrder(s, cs[..n]) && (cs[n].Took? ==> Follows(ChangedAll(s, cs[..n]), cs[n])))
  }

  predicate Follows(s: State, c: Change)
    requires c.Took?
  {
    (NonceOf(Effects(s, c.checks), NonceAccount(c.tx)) + 1) % U64 == c.tx.nonce
  }

  /** Programs do not write to the account's nonce. */
  predicate KeepsOff(c: Change, account: Account) {
    match c
    case Took(tx, checks, _) => (forall e | e in checks + AllEvents(tx.operations) :: Avoids(e, NonceKey(account)))
    case Ran(events) => (forall e | e in events :: Avoids(e, NonceKey(account)))
  }

  predicate TakesNonceOf(c: Change, account: Account) {
    c.Took? && NonceAccount(c.tx) == account
  }

  /** How often the account's nonce is taken. */
  function Count(cs: seq<Change>, account: Account): (n: nat)
    ensures n <= |cs|
  {
    if cs == [] then 0
    else Count(cs[..|cs| - 1], account) + if TakesNonceOf(cs[|cs| - 1], account) then 1 else 0
  }

  lemma OtherNonce(s: State, a: Account, b: Account, nonce: nat)
    requires a != b
    ensures NonceOf(WithNonce(s, a, nonce), b) == NonceOf(s, b)
  {
    assert NonceKey(a)[4..] == a && NonceKey(b)[4..] == b;
  }

  lemma ChangeMovesNonce(s: State, c: Change, account: Account)
    requires KeepsOff(c, account) && (c.Took? ==> Follows(s, c))
    ensures NonceOf(Changed(s, c), account) % U64 ==
            (NonceOf(s, account) + if TakesNonceOf(c, account) then 1 else 0) % U64
    ensures TakesNonceOf(c, account) ==> c.tx.nonce == (NonceOf(s, account) + 1) % U64
  {
    hide Effects, FromLittle, Little, UsesPayee, AllEvents, NonceKey;
    match c {
      case Ran(events) =>
        EffectsAvoid(s, events, NonceKey(account));
      case Took(tx, checks, reverted) =>
        assert forall e | e in checks :: e in checks + AllEvents(tx.operations);
        assert forall e | e in AllEvents(tx.operations) :: e in checks + AllEvents(tx.operations);
        var t := Effects(s, checks);
        EffectsAvoid(s, checks, NonceKey(account));
        var u := WithNonce(t, NonceAccount(tx), tx.nonce);
        EffectsAvoid(u, AllEvents(tx.operations), NonceKey(account));
        if NonceAccount(tx) == account {
          NonceWritten(t, account, tx.nonce);
        } else {
          OtherNonce(t, NonceAccount(tx), account, tx.nonce);
        }
    }
  }

  /** An account's nonce counts, modulo 2^64, how often it was taken. */
  lemma {:induction false} NonceGrows(s: State, cs: seq<Change>, account: Account)
    requires InOrder(s, cs) && forall c | c in cs :: KeepsOff(c, account)
    ensures NonceOf(ChangedAll(s, cs), account) % U64 == (NonceOf(s, account) + Count(cs, account)) % U64
    decreases |cs|
  {
    hide Changed, Follows, NonceOf, TakesNonceOf, KeepsOff;
    if cs != [] {
      var n := |cs| - 1;
      NonceGrows(s, cs[..n], account);
      assert cs[n] in cs;
      ChangeMovesNonce(ChangedAll(s, cs[..n]), cs[n], account);
      AddModulo(NonceOf(ChangedAll(s, cs[..n]), account), NonceOf(s, account) + Count(cs[..n], account));
    }
  }

  lemma AddModulo(x: nat, y: nat)
    requires x % U64 == y % U64
    ensures (x + 1) % U64 == (y + 1) % U64
  {
  }

  lemma {:induction false} InOrderPrefix(s: State, cs: seq<Change>, i: nat)
    requires InOrder(s, cs) && i <= |cs|
    ensures InOrder(s, cs[..i]) && (i < |cs| && cs[i].Took? ==> Follows(ChangedAll(s, cs[..i]), cs[i]))
    decreases |cs|
  {
    hide Follows, ChangedAll;
    if i == |cs| {
      assert cs[..i] == cs;
    } else if i < |cs| - 1 {
      InOrderPrefix(s, cs[..|cs| - 1], i);
      assert cs[..|cs| - 1][..i] == cs[..i];
    }
  }

  lemma NonceAt(s: State, cs: seq<Change>, i: nat, account: Account)
    requires InOrder(s, cs) && (forall c | c in cs :: KeepsOff(c, account)) && i < |cs| && TakesNonceOf(cs[i], account)
    ensures cs[i].tx.nonce == (NonceOf(s, account) + Count(cs[..i], account) + 1) % U64
  {
    hide Changed, ChangedAll, Follows, NonceOf, KeepsOff, InOrder, Count;
    InOrderPrefix(s, cs, i);
    NonceGrows(s, cs[..i], account);
    assert cs[i] in cs;
    ChangeMovesNonce(ChangedAll(s, cs[..i]), cs[i], account);
    AddModulo(NonceOf(ChangedAll(s, cs[..i]), account), NonceOf(s, account) + Count(cs[..i], account));
  }

  lemma {:induction false} CountBetween(cs: seq<Change>, i: nat, j: nat, account: Account)
    requires i < j <= |cs| && TakesNonceOf(cs[i], account)
    ensures Count(cs[..i], account) < Count(cs[..j], account) <= Count(cs[..i], account) + (j - i)
    decreases j
  {
    hide TakesNonceOf;
    assert cs[..j][..j - 1] == cs[..j - 1];
    if i < j - 1 {
      CountBetween(cs, i, j - 1, account);
    }
  }

  /** Within fewer than 2^64 changes no account takes the same nonce twice; so no transaction does. */
  lemma NonceTakenOnce(s: State, cs: seq<Change>, i: nat, j: nat, account: Account)
    requires InOrder(s, cs) && (forall c | c in cs :: KeepsOff(c, account))
    requires i < j < |cs| && j - i < U64 && TakesNonceOf(cs[i], account) && TakesNonceOf(cs[j], account)
    ensures cs[i].tx.nonce != cs[j].tx.nonce && cs[i].tx != cs[j].tx
  {
    hide KeepsOff, InOrder, Count, NonceOf;
    NonceAt(s, cs, i, account);
    NonceAt(s, cs, j, account);
    CountBetween(cs, i, j, account);
    DifferModulo(NonceOf(s, account) + Count(cs[..i], account) + 1, NonceOf(s, account) + Count(cs[..j], account) + 1);
  }

  lemma DifferModulo(x: nat, y: nat)
    requires x < y < x + U64
    ensures x % U64 != y % U64
  {
  }

  /** The transactions of a block that get their receipts, as changes. */
  function BlockChanges(txs: seq<Transaction>, authority: nat -> Authorities): (cs: seq<Change>)
    ensures |cs| == |txs|
  {
    seq(|txs|, i requires 0 <= i < |txs| => Took(txs[i], ChecksOf(txs[i], authority(i)), Reverts(txs[i])))
  }

  /** A block that yields a receipt takes its nonces in order. */
  lemma {:induction false} WalkInOrder(
      cost: Resources, left: Resources, s: State, txs: seq<Transaction>, authority: nat -> Authorities)
    requires Walk(cost, left, s, txs, authority).Some?
    ensures InOrder(s, BlockChanges(txs, authority))
    ensures ChangedAll(s, BlockChanges(txs, authority)) == Walk(cost, left, s, txs, authority).value.0
    decreases |txs|
  {
    hide Effects, After, Entered, Finished, ChecksOf, NonceOf, Reverts, UsesPayee;
    if txs != [] {
      var n := |txs| - 1;
      WalkInOrder(cost, left, s, txs[..n], authority);
      assert BlockChanges(txs, authority)[..n] == BlockChanges(txs[..n], authority);
    }
  }

  lemma NothingUsed(cost: Resources)
    ensures Weighted(cost, Resources(0, 0, 0)) == 0
  {
  }

  class TemporaryNode {
    var delta: Deltas.StateDelta?

    constructor (delta: Delta)
      ensures this.delta == delta
    {
      this.delta := delta;
    }

    /** Refused the second time, and refused below a final parent. */
    method Squash(ghost chain: seq<Delta>) returns (outcome: Deltas.Outcome)
      requires delta != null ==> Delta.Linked(chain) && |chain| > 1 && chain[0] == delta
      modifies this
      modifies (if delta == null then {} else Delta.Front(chain))`removed
      modifies (if delta == null then {} else set d | d in Delta.Front(chain) && d.backend != null :: d.backend)`entries
      ensures outcome.Ok? <==> old(delta) != null && !old(chain[1].final)
      ensures !outcome.Ok? ==> unchanged(this)
      ensures !outcome.Ok? && delta != null ==>
        Delta.Linked(chain) && Delta.LayersOf(chain) == old(Delta.LayersOf(chain))
      ensures outcome.Ok? ==>
        delta == null && Delta.Linked(chain[1..]) && Delta.ViewOf(chain[1..]) == old(Delta.ViewOf(chain))
    {
      if delta == null {
        return Deltas.Threw("state node has already been squashed");
      }
      Delta.Unfold(chain);
      if delta.parent.final {
        return Deltas.Threw("parent state node is final");
      }
      hide Deltas.StateDelta.LayersOf, Deltas.StateDelta.ViewOf, Deltas.StateDelta.Linked;
      delta.Squash(chain);
      label L:
      delta := null;
      Delta.Frame@L(chain[1..]);
      outcome := Deltas.Ok;
    }
  }

  class ExecutionContext {
    const meter: ResourceMeter
    var node: Delta

    constructor (meter: ResourceMeter, node: Delta)
      ensures this.meter == meter && this.node == node
    {
      this.meter := meter;
      this.node := node;
    }

    /** The context works on the first node of a chain, which is not final. */
    ghost predicate Ready(chain: seq<Delta>)
      reads this, chain
    {
      Delta.Linked(chain) && chain[0] == node && !node.final
    }

    /** A session is running, and no price overflows. */
    ghost predicate Metered()
      reads meter
    {
      meter.Safe() && meter.session != null
    }

    ghost function TheBooks(): Books
      reads meter, meter.session
      requires meter.session != null
    {
      meter.TheBooks()
    }

    /** Using the meter does not touch the state. */
    method Meter(u: Use, ghost chain: seq<Delta>) returns (code: Code)
      requires Ready(chain) && Metered()
      modifies meter, meter.session
      ensures Ready(chain) && Delta.ViewOf(chain) == old(Delta.ViewOf(chain))
      ensures Metered() && meter.session == old(meter.session) && meter.limits == old(meter.limits)
      ensures (TheBooks(), code) == Charge(meter.limits.cost, old(TheBooks()), u)
      ensures Within(meter.remaining, old(meter.remaining))
    {
      ChargeBalances(meter.limits.cost, meter.remaining, TheBooks(), u);
      hide Deltas.StateDelta.LayersOf, Deltas.StateDelta.ViewOf, Deltas.StateDelta.Linked, Charge, Price;
      var status: Status;
      match u {
        case Disk(bytes) => status := meter.UseDiskStorage(bytes);
        case Network(bytes) => status := meter.UseNetworkBandwidth(bytes);
        case Compute(ticks) => status := meter.UseComputeBandwidth(ticks);
      }
      Delta.Frame(chain);
      code := status.code;
    }

    method ApplyEvent(e: Event, ghost chain: seq<Delta>)
      requires Ready(chain) && Metered()
      modifies meter, meter.session, node`removed, node.backend
      ensures Ready(chain) && Delta.ViewOf(chain) == Effect(old(Delta.ViewOf(chain)), e)
      ensures Metered() && meter.session == old(meter.session) && meter.limits == old(meter.limits)
      ensures TheBooks() == ChargeAll(meter.limits.cost, old(TheBooks()), EventUses(e))
    {
      hide Deltas.StateDelta.LayersOf, Deltas.StateDelta.ViewOf, Deltas.StateDelta.Linked, Charge, ChargeAll, Unsigned;
      hide ResourceMeter.Safe;
      EventCharges(meter.limits.cost, TheBooks(), e);
      match e {
        case Spend(ticks) =>
          var _ := Meter(Compute(ticks), chain);
        case Put(key, value, bytes) =>
          var _ := Meter(Compute(1), chain);
          var _ := node.Put(key, value, chain);
          var _ := Meter(Disk(Unsigned(bytes)), chain);
        case Remove(key, bytes) =>
          var _ := Meter(Compute(1), chain);
          var _ := node.Remove(key, chain);
          var _ := Meter(Disk(Unsigned(bytes)), chain);
        case Upload(key, value) =>
          var _ := node.Put(key, value, chain);
      }
    }

    method RunEvents(events: seq<Event>, ghost chain: seq<Delta>)
      requires Ready(chain) && Metered()
      modifies meter, meter.session, node`removed, node.backend
      ensures Ready(chain) && Delta.ViewOf(chain) == Effects(old(Delta.ViewOf(chain)), events)
      ensures Metered() && meter.session == old(meter.session) && meter.limits == old(meter.limits)
      ensures TheBooks() == ChargeEvents(meter.limits.cost, old(TheBooks()), events)
    {
      hide Deltas.StateDelta.LayersOf, Deltas.StateDelta.ViewOf, Deltas.StateDelta.Linked, Effect, ChargeAll, EventUses;
      hide ResourceMeter.Safe;
      ghost var cost, books := meter.limits.cost, TheBooks();
      for i := 0 to |events|
        invariant Ready(chain) && Delta.ViewOf(chain) == Effects(old(Delta.ViewOf(chain)), events[..i])
        invariant node.backend == old(node.backend)
        invariant Metered() && meter.session == old(meter.session) && meter.limits == old(meter.limits)
        invariant TheBooks() == ChargeEvents(cost, books, events[..i])
      {
        ApplyEvent(events[i], chain);
        assert events[..i + 1][..i] == events[..i];
      }
      assert events[..|events|] == events;
    }

    /** Runs the operations in order and stops at the first that fails. */
    method RunOperations(ops: seq<Operation>, ghost chain: seq<Delta>) returns (code: Code)
      requires Ready(chain) && Metered()
      modifies meter, meter.session, node`removed, node.backend
      ensures Ready(chain) && (code == Success <==> forall op | op in ops :: op.ok)
      ensures code == Success ==> Delta.ViewOf(chain) == Effects(old(Delta.ViewOf(chain)), AllEvents(ops))
      ensures Metered() && meter.session == old(meter.session) && meter.limits == old(meter.limits)
      ensures TheBooks() == ChargeEvents(meter.limits.cost, old(TheBooks()), AllEvents(Executed(ops)))
    {
      hide Deltas.StateDelta.LayersOf, Deltas.StateDelta.ViewOf, Deltas.StateDelta.Linked, Effects, ChargeEvents;
      hide Executed, ResourceMeter.Safe;
      ghost var before, cost, books := Delta.ViewOf(chain), meter.limits.cost, TheBooks();
      assert AllEvents(ops[..0]) == [];
      NoEvents(before, cost, books);
      for i := 0 to |ops|
        invariant Ready(chain) && Delta.ViewOf(chain) == Effects(before, AllEvents(ops[..i]))
        invariant forall j | 0 <= j < i :: ops[j].ok
        invariant node.backend == old(node.backend)
        invariant Metered() && meter.session == old(meter.session) && meter.limits == old(meter.limits)
        invariant TheBooks() == ChargeEvents(cost, books, AllEvents(ops[..i]))
      {
        RunEvents(ops[i].events, chain);
        assert ops[..i + 1][..i] == ops[..i];
        EffectsConcat(before, AllEvents(ops[..i]), ops[i].events);
        ChargeEventsConcat(cost, books, AllEvents(ops[..i]), ops[i].events);
        if !ops[i].ok {
          ExecutedIs(ops, i);
          return OperationFailed;
        }
      }
      assert ops[..|ops|] == ops;
      ExecutedIs(ops, |ops|);
      code := Success;
    }

    /** Switches to a temporary child of the current node. */
    method EnterChild(ghost chain: seq<Delta>) returns (transactionNode: TemporaryNode, child: Delta)
      requires Ready(chain)
      modifies `node
      ensures fresh(transactionNode) && transactionNode.delta == child == node
      ensures fresh(child) && child.backend != null && fresh(child.backend)
      ensures Ready([child] + chain) && Delta.ViewOf([child] + chain) == old(Delta.ViewOf(chain))
    {
      hide Deltas.StateDelta.LayersOf, Deltas.StateDelta.ViewOf, Deltas.StateDelta.Linked;
      child := node.MakeChild(NullId(), chain);
      Delta.Frame(chain);
      label L:
      transactionNode := new TemporaryNode(child);
      node := child;
      Delta.Frame@L([child] + chain);
    }

    /** Goes back to the block's node, with the child's changes or without. */
    method LeaveChild(transactionNode: TemporaryNode, blockNode: Delta, code: Code,
                      ghost child: Delta, ghost chain: seq<Delta>)
      requires Ready([child] + chain) && transactionNode.delta == child
      requires Delta.Linked(chain) && chain[0] == blockNode && !blockNode.final
      modifies `node, transactionNode, child`removed, child.backend, blockNode`removed, blockNode.backend
      ensures Ready(chain) && node == blockNode
      ensures Delta.ViewOf(chain) ==
        if code == Success then old(Delta.ViewOf([child] + chain)) else old(Delta.ViewOf(chain))
    {
      hide Deltas.StateDelta.LayersOf, Deltas.StateDelta.ViewOf, Deltas.StateDelta.Linked;
      ghost var longer := [child] + chain;
      assert longer[1..] == chain;
      Delta.Unfold(longer);
      Delta.Unfold(chain);
      if code == Success {
        var _ := transactionNode.Squash(longer);
        label L:
        node := blockNode;
        Delta.Frame@L(chain);
      } else {
        node := blockNode;
        Delta.Frame(chain);
      }
    }

    /** Runs the operations on a node of their own, and squashes it only if all succeed. */
    method RunOnChild(ops: seq<Operation>, ghost chain: seq<Delta>) returns (code: Code)
      requires Ready(chain) && Metered()
      modifies `node, meter, meter.session, node`removed, node.backend
      ensures Ready(chain) && node == old(node) && (code == Success <==> forall op | op in ops :: op.ok)
      ensures Delta.ViewOf(chain) ==
        if code == Success then Effects(old(Delta.ViewOf(chain)), AllEvents(ops)) else old(Delta.ViewOf(chain))
      ensures Metered() && meter.session == old(meter.session) && meter.limits == old(meter.limits)
      ensures TheBooks() == ChargeEvents(meter.limits.cost, old(TheBooks()), AllEvents(Executed(ops)))
    {
      hide Deltas.StateDelta.LayersOf, Deltas.StateDelta.ViewOf, Deltas.StateDelta.Linked;
      hide Effects, AllEvents, ChargeEvents, Executed;
      hide ResourceMeter.Safe;
      Delta.Unfold(chain);
      var blockNode := node;
      var transactionNode, child := EnterChild(chain);
      code := RunOperations(ops, [child] + chain);
      Delta.Frame(chain);
      LeaveChild(transactionNode, blockNode, code, child, chain);
    }

    /** Checks one account. */
    method CheckAuthority(a: Authority, ghost chain: seq<Delta>) returns (verdict: Verdict)
      requires Ready(chain) && Metered()
      modifies meter, meter.session, node`removed, node.backend
      ensures Ready(chain) && verdict == a.verdict
      ensures Delta.ViewOf(chain) == Effects(old(Delta.ViewOf(chain)), CheckOf(a))
      ensures Metered() && meter.session == old(meter.session) && meter.limits == old(meter.limits)
      ensures TheBooks() == ChargeEvents(meter.limits.cost, old(TheBooks()), CheckOf(a))
    {
      hide Deltas.StateDelta.LayersOf, Deltas.StateDelta.ViewOf, Deltas.StateDelta.Linked, Effects, ChargeEvents;
      hide ResourceMeter.Safe;
      RunEvents([Spend(1)] + a.events, chain);
      verdict := a.verdict;
    }

    /** Authority of payer and payee, then the nonce, as the checks left it. */
    method Admit(tx: Transaction, authority: Authorities, ghost chain: seq<Delta>) returns (code: Code)
      requires Ready(chain) && Metered()
      requires Sound(authority)
      modifies meter, meter.session, node`removed, node.backend
      ensures Ready(chain) && Delta.ViewOf(chain) == Checked(old(Delta.ViewOf(chain)), tx, authority)
      ensures Metered() && meter.session == old(meter.session) && meter.limits == old(meter.limits)
      ensures code == Refusal(Delta.ViewOf(chain), tx, authority)
      ensures TheBooks() == ChargeEvents(meter.limits.cost, old(TheBooks()), ChecksOf(tx, authority))
    {
      hide Deltas.StateDelta.LayersOf, Deltas.StateDelta.ViewOf, Deltas.StateDelta.Linked;
      hide Effects, ChargeEvents, CheckOf, UsesPayee;
      hide ResourceMeter.Safe, FromLittle;
      ghost var s, b, cost := Delta.ViewOf(chain), TheBooks(), meter.limits.cost;
      NoEvents(s, cost, b);
      if ACCOUNT_RESOURCES < tx.resourceLimit {
        return InsufficientResources;
      }
      var payer := CheckAuthority(authority.payer, chain);
      if payer != Granted {
        return CodeOf(payer);
      }
      if UsesPayee(tx) {
        EffectsConcat(s, CheckOf(authority.payer), CheckOf(authority.payee));
        ChargeEventsConcat(cost, b, CheckOf(authority.payer), CheckOf(authority.payee));
        var payee := CheckAuthority(authority.payee, chain);
        if payee != Granted {
          return CodeOf(payee);
        }
      }
      code := CheckNonce(tx, chain);
    }

    method CheckNonce(tx: Transaction, ghost chain: seq<Delta>) returns (code: Code)
      requires Ready(chain)
      ensures Ready(chain) && Delta.ViewOf(chain) == old(Delta.ViewOf(chain))
      ensures code ==
        if (NonceOf(Delta.ViewOf(chain), NonceAccount(tx)) + 1) % U64 != tx.nonce then InvalidNonce else Success
    {
      hide Deltas.StateDelta.LayersOf, Deltas.StateDelta.ViewOf, Deltas.StateDelta.Linked;
      var entry := node.Get(NonceKey(NonceAccount(tx)), chain);
      Delta.Frame(chain);
      var nonce := if entry.Some? then FromLittle(entry.value) else 0;
      return if (nonce + 1) % U64 != tx.nonce then InvalidNonce else Success;
    }

    /** Writes the nonce, then pays for it and for the transaction's size. */
    method TakeNonce(tx: Transaction, ghost chain: seq<Delta>) returns (code: Code)
      requires Ready(chain) && Metered()
      modifies meter, meter.session, node`removed, node.backend
      ensures Ready(chain) && Delta.ViewOf(chain) == WithNonce(old(Delta.ViewOf(chain)), NonceAccount(tx), tx.nonce)
      ensures Metered() && meter.session == old(meter.session) && meter.limits == old(meter.limits)
      ensures var stored := Charge(meter.limits.cost, old(TheBooks()), Disk(Unsigned(tx.nonceBytes)));
              (TheBooks(), code) ==
              if stored.1 != Success then stored else Charge(meter.limits.cost, stored.0, Network(tx.size))
    {
      hide Deltas.StateDelta.LayersOf, Deltas.StateDelta.ViewOf, Deltas.StateDelta.Linked, Charge, Unsigned;
      hide ResourceMeter.Safe;
      var _ := node.Put(NonceKey(NonceAccount(tx)), Little(tx.nonce, 8), chain);
      code := Meter(Disk(Unsigned(tx.nonceBytes)), chain);
      if code == Success {
        code := Meter(Network(tx.size), chain);
      }
    }

    /** All steps between opening the session and closing it. */
    method RunInSession(tx: Transaction, authority: Authorities, ghost chain: seq<Delta>)
        returns (rejected: Code, failed: Code)
      requires Ready(chain) && Metered() && meter.session.remaining == tx.resourceLimit
      requires Sound(authority)
      modifies `node, meter, meter.session, node`removed, node.backend
      ensures Ready(chain) && node == old(node)
      ensures Metered() && meter.session == old(meter.session) && meter.limits == old(meter.limits)
      ensures var t := Checked(old(Delta.ViewOf(chain)), tx, authority);
              var cost, left := meter.limits.cost, old(meter.remaining);
        if Refusal(t, tx, authority) != Success then
          rejected == Refusal(t, tx, authority) && Delta.ViewOf(chain) == t
        else
          && rejected == Entered(cost, left, tx, authority).1
          && Delta.ViewOf(chain) == After(t, tx, rejected != Success || failed != Success)
          && (rejected == Success ==>
                && (failed == Success <==> forall op | op in tx.operations :: op.ok)
                && TheBooks() == Finished(cost, left, tx, authority))
      ensures Within(meter.remaining, old(meter.remaining))
    {
      hide Deltas.StateDelta.LayersOf, Deltas.StateDelta.ViewOf, Deltas.StateDelta.Linked;
      hide Effects, AllEvents, WithNonce, UsesPayee, ChecksOf, Checked;
      hide Charge, ChargeAll, ChargeEvents, Executed, Refusal;
      hide NonceAccount, Unsigned, ResourceMeter.Safe;
      ghost var cost, left := meter.limits.cost, meter.remaining;
      FinishedBalances(cost, left, tx, authority);
      EntryWithin(cost, left, tx, authority);
      failed := Success;
      rejected := Admit(tx, authority, chain);
      if rejected == Success {
        rejected := TakeNonce(tx, chain);
        if rejected == Success {
          failed := RunOnChild(tx.operations, chain);
        }
      }
    }

    /** A transaction that yields a receipt has used up its nonce, and has run completely or
        not at all; what it used, weighted by the costs, is what its payer is charged. */
    method ApplyTransaction(tx: Transaction, authority: Authorities, ghost chain: seq<Delta>)
        returns (r: Result<Receipt>)
      requires Ready(chain) && meter.Safe()
      requires Sound(authority)
      modifies `node, meter, node`removed, node.backend
      ensures Ready(chain) && node == old(node) && !r.Raised?
      ensures meter.Safe() && meter.session == null && meter.limits == old(meter.limits)
      ensures Within(meter.remaining, old(meter.remaining))
      ensures var t := Checked(old(Delta.ViewOf(chain)), tx, authority);
              var cost, left := meter.limits.cost, old(meter.remaining);
        if !Admissible(t, tx, authority) then r == Unexpected(Refusal(t, tx, authority)) && Delta.ViewOf(chain) == t
        else if r.Unexpected? then
          r.code == Entered(cost, left, tx, authority).1 != Success && Delta.ViewOf(chain) == After(t, tx, true)
        else
          && Entered(cost, left, tx, authority).1 == Success
          && Delta.ViewOf(chain) == After(t, tx, r.value.reverted)
          && (r.value.reverted <==> exists op | op in tx.operations :: !op.ok)
      ensures r.Expected? ==>
        && meter.remaining == Finished(meter.limits.cost, old(meter.remaining), tx, authority).left
        && r.value.used == Minus(old(meter.remaining), meter.remaining)
        && r.value.resourceUsed == Weighted(meter.limits.cost, r.value.used) <= r.value.resourceLimit
        && r.value.resourceLimit == tx.resourceLimit
    {
      hide Deltas.StateDelta.LayersOf, Deltas.StateDelta.ViewOf, Deltas.StateDelta.Linked;
      hide Admissible, Refusal, After, Weighted, Entered, Finished, Checked;
      RefusalOf(Checked(Delta.ViewOf(chain), tx, authority), tx, authority);
      FinishedBalances(meter.limits.cost, meter.remaining, tx, authority);
      var initial := meter.remaining;
      var session := BeginSession(tx, chain);
      var rejected, failed := RunInSession(tx, authority, chain);
      var used, remaining := session.Used(), meter.remaining;
      EndSession(chain);
      if rejected != Success {
        return Unexpected(rejected);
      }
      r := Expected(Receipt(failed != Success, tx.resourceLimit, used, Minus(initial, remaining)));
    }

    method BeginSession(tx: Transaction, ghost chain: seq<Delta>) returns (session: ResourceSession)
      requires Ready(chain) && meter.Safe()
      modifies meter
      ensures Ready(chain) && Delta.ViewOf(chain) == old(Delta.ViewOf(chain))
      ensures fresh(session) && session.initial == session.remaining == tx.resourceLimit && meter.session == session
      ensures Metered() && meter.remaining == old(meter.remaining) && meter.limits == old(meter.limits)
    {
      hide Deltas.StateDelta.LayersOf, Deltas.StateDelta.ViewOf, Deltas.StateDelta.Linked;
      hide ResourceMeter.Safe;
      session := meter.OpenSession(tx.resourceLimit);
      Delta.Frame(chain);
    }

    method EndSession(ghost chain: seq<Delta>)
      requires Ready(chain) && meter.Safe()
      modifies meter
      ensures Ready(chain) && Delta.ViewOf(chain) == old(Delta.ViewOf(chain))
      ensures meter.session == null && meter.Safe()
      ensures meter.remaining == old(meter.remaining) && meter.limits == old(meter.limits)
    {
      hide Deltas.StateDelta.LayersOf, Deltas.StateDelta.ViewOf, Deltas.StateDelta.Linked;
      hide ResourceMeter.Safe;
      meter.DropSession();
      Delta.Frame(chain);
    }

    /** Applies the transactions in order. A block receipt adds up the transactions' receipts; without one
        the earlier transactions stay applied. */
    method ApplyBlock(txs: seq<Transaction>, signer: Bytes, authority: nat -> Authorities,
                      ghost chain: seq<Delta>)
        returns (r: Result<BlockReceipt>)
      requires Ready(chain)
      requires forall i :: Sound(authority(i))
      modifies `node, meter, node`removed, node.backend
      ensures Ready(chain) && node == old(node)
      ensures r.Raised? <==> GENESIS_KEY !in old(Delta.ViewOf(chain))
      ensures Lookup(old(Delta.ViewOf(chain)), GENESIS_KEY) != Some(signer) ==>
        !r.Expected? && Delta.ViewOf(chain) == old(Delta.ViewOf(chain))
      ensures Lookup(old(Delta.ViewOf(chain)), GENESIS_KEY) == Some(signer) ==>
        Applied(DEFAULT_LIMITS.cost, DEFAULT_LIMITS.most, old(Delta.ViewOf(chain)), txs, authority, r,
                Delta.ViewOf(chain))
      ensures r.Expected? ==>
        var used := r.value.used;
        && used.disk <= 409_600 && used.network <= 1_048_576 && used.compute <= 100_000_000
        && TotalCharged(r.value.receipts) == 10 * used.disk + 5 * used.network + used.compute
    {
      hide Deltas.StateDelta.LayersOf, Deltas.StateDelta.ViewOf, Deltas.StateDelta.Linked, Applied;
      meter.SetResourceLimits(DEFAULT_LIMITS);
      Delta.Frame(chain);
      var start := meter.remaining;
      var entry := node.Get(GENESIS_KEY, chain);
      Delta.Frame(chain);
      if entry == None {
        return Raised("genesis address not found");
      }
      if entry.value != signer {
        return Unexpected(InvalidSignature);
      }
      r := ApplyAll(txs, authority, start, chain);
      UseInNumbers(old(Delta.ViewOf(chain)), txs, authority, r, Delta.ViewOf(chain));
    }

    method ApplyAll(txs: seq<Transaction>, authority: nat -> Authorities, start: Resources,
                    ghost chain: seq<Delta>)
        returns (r: Result<BlockReceipt>)
      requires Ready(chain) && meter.Safe() && meter.remaining == start
      requires forall i :: Sound(authority(i))
      modifies `node, meter, node`removed, node.backend
      ensures Ready(chain) && node == old(node) && !r.Raised?
      ensures Applied(old(meter.limits).cost, start, old(Delta.ViewOf(chain)), txs, authority, r, Delta.ViewOf(chain))
    {
      hide Deltas.StateDelta.LayersOf, Deltas.StateDelta.ViewOf, Deltas.StateDelta.Linked;
      hide Walk, WalkStep, Receipts, Tally, Leftover, LeftoverCode;
      hide ResourceMeter.Safe, Sound, Weighted, Reverts, TotalUsed, TotalCharged;
      ghost var before, cost := Delta.ViewOf(chain), meter.limits.cost;
      var receipts: seq<Receipt> := [];
      NoReceipts(cost, start, before, txs, authority);
      for i := 0 to |txs|
        invariant Ready(chain) && node == old(node) && node.backend == old(node.backend)
        invariant meter.Safe() && meter.limits.cost == cost
        invariant Walk(cost, start, before, txs[..i], authority) == Some((Delta.ViewOf(chain), meter.remaining))
        invariant Tally(cost, start, meter.remaining, txs[..i], receipts)
      {
        ghost var s, left := Delta.ViewOf(chain), meter.remaining;
        WalkNext(cost, start, before, txs, authority, i);
        var receipt := ApplyNext(txs[i], authority(i), chain);
        if receipt.Unexpected? {
          ReceiptsAre(cost, start, before, txs, authority, i);
          return Unexpected(receipt.code);
        }
        TallyNext(cost, start, left, meter.remaining, txs, i, receipts, receipt.value);
        receipts := receipts + [receipt.value];
      }
      assert txs[..|txs|] == txs;
      TallyUsed(cost, start, meter.remaining, txs, receipts);
      var used := Minus(start, meter.remaining);
      r := Expected(BlockReceipt(receipts, used, used));
    }

    /** One transaction of a block, as the walk sees it. */
    method ApplyNext(tx: Transaction, authority: Authorities, ghost chain: seq<Delta>)
        returns (r: Result<Receipt>)
      requires Ready(chain) && meter.Safe()
      requires Sound(authority)
      modifies `node, meter, node`removed, node.backend
      ensures Ready(chain) && node == old(node) && !r.Raised? && meter.Safe() && meter.limits == old(meter.limits)
      ensures Within(meter.remaining, old(meter.remaining))
      ensures var s, cost, left := old(Delta.ViewOf(chain)), meter.limits.cost, old(meter.remaining);
        if r.Expected? then
          && WalkStep(cost, left, s, tx, authority) == Some((Delta.ViewOf(chain), meter.remaining))
          && r.value.reverted == Reverts(tx) && r.value.used == Minus(left, meter.remaining)
          && r.value.resourceUsed == Weighted(cost, r.value.used)
        else
          && WalkStep(cost, left, s, tx, authority) == None
          && Delta.ViewOf(chain) == Leftover(s, tx, authority)
          && r.code == LeftoverCode(cost, left, s, tx, authority)
    {
      hide Deltas.StateDelta.LayersOf, Deltas.StateDelta.ViewOf, Deltas.StateDelta.Linked;
      hide Checked, After, Admissible, Refusal, Entered, Finished, Weighted, ResourceMeter.Safe, Sound;
      r := ApplyTransaction(tx, authority, chain);
    }
  }

  /** What a block does: receipts for all its transactions, or the state and the error of the first
      that gets none, on top of the ones before it. */
  ghost predicate Applied(cost: Resources, left: Resources, s: State, txs: seq<Transaction>,
                          authority: nat -> Authorities, r: Result<BlockReceipt>, after: State) {
    match r
    case Expected(b) =>
      && Walk(cost, left, s, txs, authority).Some? && Walk(cost, left, s, txs, authority).value.0 == after
      && |b.receipts| == |txs| && (forall i | 0 <= i < |txs| :: b.receipts[i].reverted == Reverts(txs[i]))
      && b.used == b.charged == TotalUsed(b.receipts) && Within(b.used, left)
      && TotalCharged(b.receipts) == Weighted(cost, b.used)
    case Unexpected(code) =>
      var n := Receipts(cost, left, s, txs, authority);
      && n < |txs|
      && var before := Walk(cost, left, s, txs[..n], authority).value;
         after == Leftover(before.0, txs[n], authority(n)) &&
         code == LeftoverCode(cost, before.1, before.0, txs[n], authority(n))
    case Raised(_) => false
  }

  lemma UseInNumbers(s: State, txs: seq<Transaction>, authority: nat -> Authorities, r: Result<BlockReceipt>,
                     after: State)
    requires Applied(DEFAULT_LIMITS.cost, DEFAULT_LIMITS.most, s, txs, authority, r, after)
    ensures r.Expected? ==>
      var used := r.value.used;
      && used.disk <= 409_600 && used.network <= 1_048_576 && used.compute <= 100_000_000
      && TotalCharged(r.value.receipts) == 10 * used.disk + 5 * used.network + used.compute
  {
    hide Walk, Receipts, Leftover, LeftoverCode;
  }

  /** The receipts so far account for what has been used so far. */
  ghost predicate Tally(cost: Resources, start: Resources, left: Resources, txs: seq<Transaction>, rs: seq<Receipt>) {
    && |rs| == |txs| && (forall i | 0 <= i < |txs| :: rs[i].reverted == Reverts(txs[i]))
    && Within(left, start) && Minus(start, left) == TotalUsed(rs)
    && TotalCharged(rs) == Weighted(cost, TotalUsed(rs))
  }

  lemma NoReceipts(
      cost: Resources, left: Resources, s: State, txs: seq<Transaction>, authority: nat -> Authorities)
    ensures Walk(cost, left, s, txs[..0], authority) == Some((s, left)) && Tally(cost, left, left, txs[..0], [])
  {
    NothingUsed(cost);
  }

  lemma TallyNext(cost: Resources, start: Resources, left: Resources, now: Resources, txs: seq<Transaction>, i: nat,
                  rs: seq<Receipt>, r: Receipt)
    requires i < |txs| && Tally(cost, start, left, txs[..i], rs) && Within(now, left)
    requires r.reverted == Reverts(txs[i]) && r.used == Minus(left, now) && r.resourceUsed == Weighted(cost, r.used)
    ensures Tally(cost, start, now, txs[..i + 1], rs + [r])
  {
    hide Weighted, Reverts;
    assert (rs + [r])[..|rs|] == rs;
    WeightedSum(cost, TotalUsed(rs), r.used);
  }

  lemma TallyUsed(cost: Resources, start: Resources, left: Resources, txs: seq<Transaction>, rs: seq<Receipt>)
    requires Tally(cost, start, left, txs, rs)
    ensures |rs| == |txs| && forall i | 0 <= i < |txs| :: rs[i].reverted == Reverts(txs[i])
    ensures Within(left, start) && Minus(start, left) == TotalUsed(rs)
    ensures TotalCharged(rs) == Weighted(cost, TotalUsed(rs))
  {
  }

  lemma RefusalOf(s: State, tx: Transaction, authority: Authorities)
    requires Sound(authority)
    ensures Refusal(s, tx, authority) == Success <==> Admissible(s, tx, authority)
  {
  }

  /** The charges of one event, spelled out. */
  lemma EventCharges(cost: Resources, b: Books, e: Event)
    ensures e.Spend? ==> ChargeAll(cost, b, EventUses(e)) == Charge(cost, b, Compute(e.ticks)).0
    ensures e.Put? || e.Remove? ==>
      ChargeAll(cost, b, EventUses(e)) == Charge(cost, Charge(cost, b, Compute(1)).0, Disk(Unsigned(e.bytes))).0
    ensures e.Upload? ==> ChargeAll(cost, b, EventUses(e)) == b
  {
    hide Charge, Unsigned;
    if e.Put? || e.Remove? {
      TwoCharges(cost, b, Compute(1), Disk(Unsigned(e.bytes)));
    } else if e.Spend? {
      ChargeOne(cost, b, Compute(e.ticks));
    }
  }

  lemma TwoCharges(cost: Resources, b: Books, u: Use, v: Use)
    ensures ChargeAll(cost, b, [u, v]) == Charge(cost, Charge(cost, b, u).0, v).0
  {
    hide Charge;
    assert [u, v][..1] == [u];
    ChargeOne(cost, b, u);
  }

  /** Resources only go down before the operations run. */
  lemma EntryWithin(cost: Resources, left: Resources, tx: Transaction, authority: Authorities)
    ensures Within(ChargeEvents(cost, Books(left, tx.resourceLimit), ChecksOf(tx, authority)).left, left)
    ensures Within(Entered(cost, left, tx, authority).0.left, left)
  {
    hide Charge, ChargeEvents, Weighted, ChecksOf, Unsigned;
    var b := Books(left, tx.resourceLimit);
    EventsBalance(cost, left, b, ChecksOf(tx, authority));
    var checked := ChargeEvents(cost, b, ChecksOf(tx, authority));
    ChargeBalances(cost, left, checked, Disk(Unsigned(tx.nonceBytes)));
    ChargeBalances(cost, left, Charge(cost, checked, Disk(Unsigned(tx.nonceBytes))).0, Network(tx.size));
  }

  lemma NoEvents(s: State, cost: Resources, b: Books)
    ensures Effects(s, []) == s && ChargeEvents(cost, b, []) == b
  {
  }
}
