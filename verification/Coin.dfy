/** The native coin program: transfer, mint and burn over 64-bit balances. Checking the
    authority of a program account runs that program, which may call the coin again. */
module Coin {
  import opened Bytes
  import opened StateLayers
  import opened Words

  type Account = Bytes

  datatype Code =
    | Success
    | InvalidArgument
    | Unauthorized
    | InsufficientBalance
    | InsufficientSupply
    | Overflow

  /** What happens while an authority is checked: further coin instructions, and the verdict, or
      none if the check ends in an error. The program goes on whenever there is a verdict. */
  datatype Check = Check(nested: seq<Instruction>, verdict: Option<bool>)

  datatype Instruction =
    | Transfer(caller: Account, from: Account, to: Account, value: nat, check: Check)
    | Mint(to: Account, value: nat)
    | Burn(caller: Account, from: Account, value: nat, check: Check)
    | Query

  datatype Ledger = Ledger(supply: nat, balances: map<Account, nat>)

  // ----------------------------------------------------------- sum of a map

  function Balance(m: map<Account, nat>, a: Account): nat {
    if a in m then m[a] else 0
  }

  ghost function Total(m: map<Account, nat>): nat {
    if m == map[] then 0
    else
      var a :| a in m;
      m[a] + Total(m - {a})
  }

  /** The sum does not depend on the order in which it is taken. */
  lemma {:induction false} TotalWithout(m: map<Account, nat>, a: Account)
    ensures Total(m) == Balance(m, a) + Total(m - {a})
    decreases m
  {
    if a !in m {
      assert m - {a} == m;
    } else {
      var b :| b in m && Total(m) == m[b] + Total(m - {b});
      if a != b {
        TotalWithout(m - {b}, a);
        TotalWithout(m - {a}, b);
        assert m - {b} - {a} == m - {a} - {b};
      }
    }
  }

  lemma TotalUpdate(m: map<Account, nat>, a: Account, v: nat)
    ensures Total(m[a := v]) == Total(m) - Balance(m, a) + v
  {
    hide Total;
    TotalWithout(m, a);
    TotalWithout(m[a := v], a);
    assert m[a := v] - {a} == m - {a};
  }

  lemma BalanceBound(m: map<Account, nat>, a: Account)
    ensures Balance(m, a) <= Total(m)
  {
    hide Total;
    TotalWithout(m, a);
  }

  /** Two accounts together hold no more than the total. */
  lemma TwoBalances(m: map<Account, nat>, a: Account, b: Account)
    requires a != b
    ensures Balance(m, a) + Balance(m, b) <= Total(m)
  {
    hide Total;
    TotalWithout(m, a);
    TotalWithout(m - {a}, b);
  }

  /** The balances after value has moved from one account to another. */
  function Moved(balances: map<Account, nat>, from: Account, to: Account, value: nat): map<Account, nat>
    requires value <= Balance(balances, from)
  {
    balances[from := Balance(balances, from) - value][to := Balance(balances, to) + value]
  }

  // ------------------------------------------------------------------- steps

  /** What the instructions mean, without machine arithmetic. */
  function Step(s: Ledger, i: Instruction): (Ledger, Code)
    decreases i
  {
    match i
    case Query => (s, Success)
    case Transfer(caller, from, to, value, check) =>
      if from == to then (s, InvalidArgument)
      else
        var t := if from == caller then s else Run(s, check.nested);
        if from != caller && check.verdict == None then (t, Unauthorized)
        else if Balance(t.balances, from) < value then (t, InsufficientBalance)
        else (t.(balances := Moved(t.balances, from, to, value)), Success)
    case Mint(to, value) =>
      if s.supply + value > U64_MAX then (s, Overflow)
      else (Ledger(s.supply + value, s.balances[to := Balance(s.balances, to) + value]), Success)
    case Burn(caller, from, value, check) =>
      var t := if from == caller then s else Run(s, check.nested);
      if from != caller && check.verdict == None then (t, Unauthorized)
      else if Balance(t.balances, from) < value then (t, InsufficientBalance)
      else if value > t.supply then (t, InsufficientSupply)
      else (Ledger(t.supply - value, t.balances[from := Balance(t.balances, from) - value]), Success)
  }

  function Run(s: Ledger, steps: seq<Instruction>): Ledger
    decreases steps
  {
    if steps == [] then s else Run(Step(s, steps[0]).0, steps[1..])
  }

  /** The balances add up to the supply, which fits 64 bits. */
  ghost predicate Conserved(s: Ledger) {
    Total(s.balances) == s.supply < U64
  }

  lemma MovedTotal(m: map<Account, nat>, from: Account, to: Account, value: nat)
    requires from != to && value <= Balance(m, from)
    ensures Total(Moved(m, from, to, value)) == Total(m)
  {
    hide Total;
    var n := m[from := Balance(m, from) - value];
    TotalUpdate(m, from, Balance(m, from) - value);
    TotalUpdate(n, to, Balance(m, to) + value);
  }

  /** Whatever is nested in it, an instruction conserves, and never finds less supply than balance. */
  lemma {:induction false} StepConserves(s: Ledger, i: Instruction)
    requires Conserved(s)
    ensures Conserved(Step(s, i).0) && Step(s, i).1 != InsufficientSupply
    decreases i
  {
    hide Total, Run;
    match i {
      case Query =>
      case Transfer(caller, from, to, value, check) =>
        RunConserves(s, check.nested);
        var t := if from == caller then s else Run(s, check.nested);
        if from != to && value <= Balance(t.balances, from) {
          MovedTotal(t.balances, from, to, value);
        }
      case Mint(to, value) =>
        TotalUpdate(s.balances, to, Balance(s.balances, to) + value);
      case Burn(caller, from, value, check) =>
        RunConserves(s, check.nested);
        var t := if from == caller then s else Run(s, check.nested);
        BalanceBound(t.balances, from);
        var rest := if value <= Balance(t.balances, from) then Balance(t.balances, from) - value else 0;
        TotalUpdate(t.balances, from, rest);
    }
  }

  /** Conservation over every run, nested calls included. */
  lemma {:induction false} RunConserves(s: Ledger, steps: seq<Instruction>)
    requires Conserved(s)
    ensures Conserved(Run(s, steps))
    decreases steps
  {
    if steps != [] {
      StepConserves(s, steps[0]);
      RunConserves(Step(s, steps[0]).0, steps[1..]);
    }
  }

  lemma ConservedFromEmpty(steps: seq<Instruction>)
    ensures Conserved(Run(Ledger(0, map[]), steps))
  {
    RunConserves(Ledger(0, map[]), steps);
  }

  /** A run is its instructions one after the other. */
  lemma {:induction false} RunConcat(s: Ledger, xs: seq<Instruction>, ys: seq<Instruction>)
    ensures Run(s, []) == s && Run(s, xs + ys) == Run(Run(s, xs), ys)
    ensures |xs| == 1 ==> Run(s, xs) == Step(s, xs[0]).0
    decreases |xs|
  {
    hide Step;
    if xs == [] {
      assert xs + ys == ys;
    } else {
      assert (xs + ys)[1..] == xs[1..] + ys;
      RunConcat(Step(s, xs[0]).0, xs[1..], ys);
    }
  }

  // -------------------------------------------------- what each account gets

  /** Coins go from one account to the other and nowhere else, or nothing happens for the stated reason. */
  lemma TransferMoves(s: Ledger, i: Instruction, x: Account)
    requires i.Transfer?
    ensures var t := if i.from == i.caller || i.from == i.to then s else Run(s, i.check.nested);
            var (u, code) := Step(s, i);
            var ok := i.from == i.caller || i.check.verdict.Some?;
      && (code == InvalidArgument <==> i.from == i.to)
      && (code == Unauthorized <==> i.from != i.to && !ok)
      && (code == InsufficientBalance <==> i.from != i.to && ok && Balance(t.balances, i.from) < i.value)
      && (code == Success <==> i.from != i.to && ok && i.value <= Balance(t.balances, i.from))
      && u.supply == t.supply && (code != Success ==> u == t)
      && (code == Success ==>
            Balance(u.balances, x) ==
            Balance(t.balances, x) - (if x == i.from then i.value else 0) + if x == i.to then i.value else 0)
  {
    hide Run;
  }

  /** New coins go to one account, and the supply knows them. */
  lemma MintCreates(s: Ledger, i: Instruction, x: Account)
    requires i.Mint?
    ensures var (u, code) := Step(s, i);
      && (code == Overflow <==> s.supply + i.value >= 0x1_0000_0000_0000_0000) && (code == Success || code == Overflow)
      && (code == Overflow ==> u == s)
      && (code == Success ==>
            u.supply == s.supply + i.value &&
            Balance(u.balances, x) == Balance(s.balances, x) + if x == i.to then i.value else 0)
  {
  }

  /** Coins leave one account and the supply. */
  lemma BurnDestroys(s: Ledger, i: Instruction, x: Account)
    requires i.Burn?
    ensures var t := if i.from == i.caller then s else Run(s, i.check.nested);
            var (u, code) := Step(s, i);
            var ok := i.from == i.caller || i.check.verdict.Some?;
      && (code == Unauthorized <==> !ok)
      && (code == InsufficientBalance <==> ok && Balance(t.balances, i.from) < i.value)
      && (code == InsufficientSupply <==> ok && t.supply < i.value <= Balance(t.balances, i.from))
      && (code == Success <==> ok && i.value <= Balance(t.balances, i.from) && i.value <= t.supply)
      && (code != Success ==> u == t)
      && (code == Success ==>
            u.supply == t.supply - i.value &&
            Balance(u.balances, x) == Balance(t.balances, x) - if x == i.from then i.value else 0)
  {
    hide Run;
  }

  // --------------------------------------------------------------- authority

  /** A transfer or a burn: what takes coins from an account. */
  predicate IsSpend(i: Instruction) {
    i.Transfer? || i.Burn?
  }

  /** The ledger once the authority has been checked, if it is. */
  function Checked(s: Ledger, i: Instruction): Ledger
    requires IsSpend(i)
  {
    if i.from == i.caller || (i.Transfer? && i.from == i.to) then s else Run(s, i.check.nested)
  }

  /** The instruction took coins from its account, beyond what ran during the check. */
  predicate Spends(s: Ledger, i: Instruction)
    requires IsSpend(i)
  {
    Balance(Step(s, i).0.balances, i.from) < Balance(Checked(s, i).balances, i.from)
  }

  /** Balance and amount allow it. */
  predicate Affordable(s: Ledger, i: Instruction)
    requires IsSpend(i)
  {
    0 < i.value <= Balance(Checked(s, i).balances, i.from) && (i.Transfer? ==> i.from != i.to)
  }

  /** The caller is the account, or the check said yes. */
  predicate Approved(i: Instruction)
    requires IsSpend(i)
  {
    i.from == i.caller || i.check.verdict == Some(true)
  }

  /** Coins leave an account exactly if it is the caller's or the check returned any value, and
      balance and amount allow it; and only an affordable spend with the verdict no leaves an
      account that neither calls nor approves. */
  lemma SpendsExactly(s: Ledger, i: Instruction)
    requires Conserved(s) && IsSpend(i)
    ensures Spends(s, i) <==> (i.from == i.caller || i.check.verdict.Some?) && Affordable(s, i)
    ensures (Spends(s, i) ==> Approved(i)) <==>
            !(i.from != i.caller && i.check.verdict == Some(false) && Affordable(s, i))
  {
    hide Total, Run;
    RunConserves(s, i.check.nested);
    var t := Checked(s, i);
    BalanceBound(t.balances, i.from);
    var verdict := i.check.verdict;
    assert verdict.Some? ==> verdict == if verdict.value then Some(true) else Some(false);
  }

  /** The verdict no does not stop a transfer or a burn. */
  lemma RefusedSpend(a: Account, b: Account, c: Account, n: nat)
    requires a != b && a != c && 0 < n < U64
    ensures var s, no := Ledger(n, map[a := n]), Check([], Some(false));
      && Conserved(s)
      && Spends(s, Transfer(c, a, b, n, no)) && !Approved(Transfer(c, a, b, n, no))
      && Spends(s, Burn(c, a, n, no)) && !Approved(Burn(c, a, n, no))
  {
    var s, no := Ledger(n, map[a := n]), Check([], Some(false));
    TotalUpdate(map[], a, n);
    assert map[][a := n] == map[a := n];
    SpendsExactly(s, Transfer(c, a, b, n, no));
    SpendsExactly(s, Burn(c, a, n, no));
  }

  // ------------------------------------------------------------- the program

  class CoinProgram {
    var supplyObject: seq<nat>
    var balanceObjects: map<Account, nat>

    constructor ()
      ensures Model() == Ledger(0, map[])
    {
      supplyObject, balanceObjects := [], map[];
    }

    ghost function Model(): Ledger
      reads this
    {
      Ledger(TotalSupply(), balanceObjects)
    }

    /** A missing object counts as zero. */
    function TotalSupply(): nat
      reads this
    {
      if supplyObject == [] then 0 else supplyObject[0]
    }

    function BalanceOf(a: Account): nat
      reads this
    {
      if a in balanceObjects then balanceObjects[a] else 0
    }

    method PutSupply(n: nat)
      modifies this
      ensures Model() == old(Model()).(supply := n)
    {
      supplyObject := [n];
    }

    method PutBalance(a: Account, n: nat)
      modifies this
      ensures Model() == old(Model()).(balances := old(balanceObjects)[a := n])
    {
      balanceObjects := balanceObjects[a := n];
    }

    /** On a conserving ledger the wrapping arithmetic never wraps: the program does exactly
        what the instructions mean. */
    method Execute(i: Instruction) returns (code: Code)
      requires Conserved(Model())
      modifies this
      ensures Conserved(Model())
      ensures (Model(), code) == Step(old(Model()), i)
      decreases i, 0
    {
      hide Total, Conserved;
      StepConserves(Model(), i);
      match i {
        case Query =>
          return Success;
        case Transfer(caller, from, to, value, check) =>
          if from == to {
            return InvalidArgument;
          }
          var authorized := Authorize(caller, from, check);
          if !authorized {
            return Unauthorized;
          }
          code := Move(from, to, value);
        case Mint(to, value) =>
          code := Create(to, value);
        case Burn(caller, from, value, check) =>
          var authorized := Authorize(caller, from, check);
          if !authorized {
            return Unauthorized;
          }
          code := Destroy(from, value);
      }
    }

    /** The caller itself needs no check; a check may run the coin program again. */
    method Authorize(caller: Account, from: Account, check: Check) returns (ok: bool)
      requires Conserved(Model())
      modifies this
      ensures Conserved(Model())
      ensures Model() == if from == caller then old(Model()) else Run(old(Model()), check.nested)
      ensures ok == (from == caller || check.verdict.Some?)
      decreases check
    {
      if from == caller {
        return true;
      }
      ExecuteAll(check.nested);
      ok := check.verdict.Some?;
    }

    method ExecuteAll(steps: seq<Instruction>)
      requires Conserved(Model())
      modifies this
      ensures Conserved(Model()) && Model() == Run(old(Model()), steps)
      decreases steps
    {
      if steps != [] {
        var _ := Execute(steps[0]);
        ExecuteAll(steps[1..]);
      }
    }

    method Move(from: Account, to: Account, value: nat) returns (code: Code)
      requires Conserved(Model()) && from != to
      modifies this
      ensures var s := old(Model());
        (Model(), code) ==
        if Balance(s.balances, from) < value then (s, InsufficientBalance)
        else (s.(balances := Moved(s.balances, from, to, value)), Success)
    {
      var fromBalance := BalanceOf(from);
      if fromBalance < value {
        return InsufficientBalance;
      }
      var toBalance := BalanceOf(to);
      TwoBalances(balanceObjects, from, to);
      hide Total;
      fromBalance := Sub64(fromBalance, value);
      toBalance := Add64(toBalance, value);
      PutBalance(from, fromBalance);
      PutBalance(to, toBalance);
      return Success;
    }

    method Create(to: Account, value: nat) returns (code: Code)
      requires Conserved(Model())
      modifies this
      ensures var s := old(Model());
        (Model(), code) ==
        if s.supply + value > U64_MAX then (s, Overflow)
        else (Ledger(s.supply + value, s.balances[to := Balance(s.balances, to) + value]), Success)
    {
      var supply := TotalSupply();
      if U64_MAX - value < supply {
        return Overflow;
      }
      var toBalance := BalanceOf(to);
      BalanceBound(balanceObjects, to);
      hide Total;
      supply := Add64(supply, value);
      toBalance := Add64(toBalance, value);
      PutSupply(supply);
      PutBalance(to, toBalance);
      return Success;
    }

    method Destroy(from: Account, value: nat) returns (code: Code)
      requires Conserved(Model())
      modifies this
      ensures var s := old(Model());
        (Model(), code) ==
        if Balance(s.balances, from) < value then (s, InsufficientBalance)
        else if value > s.supply then (s, InsufficientSupply)
        else (Ledger(s.supply - value, s.balances[from := Balance(s.balances, from) - value]), Success)
    {
      BalanceBound(balanceObjects, from);
      hide Total;
      var fromBalance := BalanceOf(from);
      if fromBalance < value {
        return InsufficientBalance;
      }
      var supply := TotalSupply();
      if value > supply {
        return InsufficientSupply;
      }
      supply := Sub64(supply, value);
      fromBalance := Sub64(fromBalance, value);
      PutSupply(supply);
      PutBalance(from, fromBalance);
      return Success;
    }
  }
}
