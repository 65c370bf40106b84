/** What a wallet's list of transactions amounts to: unspent outputs, balance, totals, history, and which
    transactions are invalid or pending. */
module Ledger {
  // ----- Transactions -----

  type Hash = nat
  type Address = string

  const TX_UNCONFIRMED: nat := 0x7fff_ffff
  const TX_MAX_SIZE: nat := 100_000
  const TX_MIN_OUTPUT_AMOUNT: nat := 546
  const TX_MAX_LOCK_HEIGHT: nat := 500_000_000
  const SEQUENCE_FINAL: nat := 0xffff_ffff

  datatype Outpoint = Outpoint(hash: Hash, n: nat)
  datatype Input = Input(point: Outpoint, sequence: nat)

  /** The address is empty when the script has none. */
  datatype Output = Output(amount: nat, address: Address)

  datatype Tx = Tx(inputs: seq<Input>, outputs: seq<Output>, lockTime: nat, size: nat, height: nat, timestamp: nat)

  /** What the balance depends on besides the list: all known transactions, the wallet's addresses, the last
      block's height and the time. */
  datatype Env = Env(all: map<Hash, Tx>, addrs: set<Address>, height: nat, now: nat)

  datatype State = State(utxos: seq<Outpoint>, balance: nat, received: nat, sent: nat, hist: seq<nat>,
                         spent: set<Outpoint>, invalid: set<Hash>, pending: set<Hash>, used: set<Address>)

  function Points(tx: Tx): set<Outpoint> {
    set i | 0 <= i < |tx.inputs| :: tx.inputs[i].point
  }

  function Parents(tx: Tx): set<Hash> {
    set i | 0 <= i < |tx.inputs| :: tx.inputs[i].point.hash
  }

  predicate Ours(env: Env, o: Output) {
    o.address != "" && o.address in env.addrs
  }

  // ----- One transaction -----

  /** An input is spent already, or comes from an invalid transaction. */
  predicate Conflicts(s: State, tx: Tx) {
    exists i :: 0 <= i < |tx.inputs| && (tx.inputs[i].point in s.spent || tx.inputs[i].point.hash in s.invalid)
  }

  predicate InputWaits(env: Env, s: State, tx: Tx, i: Input) {
    i.sequence < SEQUENCE_FINAL - 1 ||
    (i.sequence < SEQUENCE_FINAL && tx.lockTime < TX_MAX_LOCK_HEIGHT && tx.lockTime > env.height + 1) ||
    (i.sequence < SEQUENCE_FINAL && tx.lockTime > env.now) ||
    i.point.hash in s.pending
  }

  /** Too large, with dust, replaceable, not final yet, or spending something pending. */
  predicate Waits(env: Env, s: State, tx: Tx) {
    tx.size > TX_MAX_SIZE ||
    (exists j :: 0 <= j < |tx.outputs| && tx.outputs[j].amount < TX_MIN_OUTPUT_AMOUNT) ||
    (exists i :: 0 <= i < |tx.inputs| && InputWaits(env, s, tx, tx.inputs[i]))
  }

  /** The wallet's own among the first n outputs. */
  function OwnOutputs(env: Env, h: Hash, tx: Tx, n: nat): seq<Outpoint>
    requires n <= |tx.outputs|
  {
    if n == 0 then []
    else OwnOutputs(env, h, tx, n - 1) + if Ours(env, tx.outputs[n - 1]) then [Outpoint(h, n - 1)] else []
  }

  function UsedAddresses(tx: Tx): set<Address> {
    set j | 0 <= j < |tx.outputs| && tx.outputs[j].address != "" :: tx.outputs[j].address
  }

  function Unspent(us: seq<Outpoint>, spent: set<Outpoint>): (r: seq<Outpoint>)
    ensures forall u :: u in r <==> u in us && u !in spent
  {
    if us == [] then [] else Unspent(us[..|us| - 1], spent) + if us[|us| - 1] in spent then [] else [us[|us| - 1]]
  }

  predicate Known(all: map<Hash, Tx>, u: Outpoint) {
    u.hash in all && u.n < |all[u.hash].outputs|
  }

  function Amount(all: map<Hash, Tx>, u: Outpoint): nat
    requires Known(all, u)
  {
    all[u.hash].outputs[u.n].amount
  }

  function Sum(all: map<Hash, Tx>, us: seq<Outpoint>): nat
    requires forall u :: u in us ==> Known(all, u)
  {
    if us == [] then 0 else
      var u := us[|us| - 1];
      assert u in us && Known(all, u);
      Sum(all, us[..|us| - 1]) + Amount(all, u)
  }

  predicate Listed(env: Env, s: State) {
    forall u :: u in s.utxos ==> Known(env.all, u)
  }

  lemma {:induction false} OwnAreKnown(env: Env, h: Hash, n: nat)
    requires h in env.all && n <= |env.all[h].outputs|
    ensures forall u :: u in OwnOutputs(env, h, env.all[h], n) <==>
      u.hash == h && u.n < n && Ours(env, env.all[h].outputs[u.n])
  {
    if n > 0 {
      OwnAreKnown(env, h, n - 1);
    }
  }

  datatype Verdict = Invalid | Pending | Credited

  function Judge(env: Env, s: State, tx: Tx): Verdict {
    if tx.height == TX_UNCONFIRMED && Conflicts(s, tx) then Invalid
    else if tx.height == TX_UNCONFIRMED && Waits(env, s, tx) then Pending
    else Credited
  }

  /** An invalid transaction changes nothing but the list of those; a pending one also spends its inputs; any
      other adds its outputs and drops everything that is spent by now. */
  function Step(env: Env, s: State, h: Hash): (t: State)
    requires h in env.all && Listed(env, s)
    ensures Listed(env, t)
  {
    var tx := env.all[h];
    match Judge(env, s, tx)
    case Invalid => s.(invalid := s.invalid + {h}, hist := s.hist + [s.balance])
    case Pending => s.(spent := s.spent + Points(tx), pending := s.pending + {h}, hist := s.hist + [s.balance])
    case Credited =>
      OwnAreKnown(env, h, |tx.outputs|);
      var spent := s.spent + Points(tx);
      var utxos := Unspent(s.utxos + OwnOutputs(env, h, tx, |tx.outputs|), spent);
      var balance := Sum(env.all, utxos);
      s.(utxos := utxos, balance := balance, hist := s.hist + [balance], spent := spent,
         received := s.received + (if balance > s.balance then balance - s.balance else 0),
         sent := s.sent + (if balance < s.balance then s.balance - balance else 0),
         used := s.used + UsedAddresses(tx))
  }

  const START: State := State([], 0, 0, 0, [], {}, {}, {}, {})

  function Fold(env: Env, hs: seq<Hash>): (s: State)
    requires forall h :: h in hs ==> h in env.all
    ensures Listed(env, s)
  {
    if hs == [] then START else
      assert hs[|hs| - 1] in hs;
      Step(env, Fold(env, hs[..|hs| - 1]), hs[|hs| - 1])
  }

  predicate Distinct<T(==)>(s: seq<T>) {
    forall i, j :: 0 <= i < j < |s| ==> s[i] != s[j]
  }

  /** The books balance: the balance is the sum of the unspent outputs and the difference of the totals. */
  lemma {:induction false} BooksBalance(env: Env, hs: seq<Hash>)
    requires forall h :: h in hs ==> h in env.all
    ensures var s := Fold(env, hs);
      s.balance == Sum(env.all, s.utxos) && s.balance + s.sent == s.received && |s.hist| == |hs|
  {
    if hs != [] {
      var front, h := hs[..|hs| - 1], hs[|hs| - 1];
      BooksBalance(env, front);
      assert h in hs;
    }
  }

  /** Entry k of the history is the balance of the first k + 1 transactions. */
  lemma {:induction false} HistoryIsPrefixBalance(env: Env, hs: seq<Hash>, k: nat)
    requires (forall h :: h in hs ==> h in env.all) && k < |hs|
    ensures |Fold(env, hs).hist| == |hs| && Fold(env, hs).hist[k] == Fold(env, hs[..k + 1]).balance
  {
    hide Fold, Step;
    var front, h := hs[..|hs| - 1], hs[|hs| - 1];
    assert hs == front + [h] && h in hs;
    BooksBalance(env, hs);
    BooksBalance(env, front);
    FoldStep(env, front, h);
    StepHistory(env, Fold(env, front), h);
    if k < |front| {
      HistoryIsPrefixBalance(env, front, k);
      assert front[..k + 1] == hs[..k + 1];
    } else {
      assert hs[..k + 1] == hs;
    }
  }

  // ----- Nothing is counted twice -----

  /** Every unspent output belongs to a listed transaction that is neither invalid nor pending, is the wallet's
      own, and is listed once. */
  lemma {:induction false} UtxosAreOwn(env: Env, hs: seq<Hash>)
    requires (forall h :: h in hs ==> h in env.all) && Distinct(hs)
    ensures var s := Fold(env, hs);
      s.invalid <= (set h | h in hs) && s.pending <= (set h | h in hs) &&
      Distinct(s.utxos) &&
      forall u | u in s.utxos ::
        u.hash in hs && u.hash !in s.invalid && u.hash !in s.pending &&
        Known(env.all, u) && Ours(env, env.all[u.hash].outputs[u.n])
  {
    if hs != [] {
      var front, h := hs[..|hs| - 1], hs[|hs| - 1];
      UtxosAreOwn(env, front);
      assert h in hs && h !in front;
      assert forall g :: g in hs <==> g in front || g == h;
      var s, tx := Fold(env, front), env.all[h];
      if Judge(env, s, tx) == Credited {
        OwnAreKnown(env, h, |tx.outputs|);
        OwnAreDistinct(env, h, tx, |tx.outputs|);
        var own := OwnOutputs(env, h, tx, |tx.outputs|);
        assert Distinct(s.utxos + own) by {
          forall i, j | 0 <= i < j < |s.utxos + own|
            ensures (s.utxos + own)[i] != (s.utxos + own)[j]
          {
            if i < |s.utxos| <= j {
              assert s.utxos[i] in s.utxos && own[j - |s.utxos|] in own;
            }
          }
        }
        UnspentIsDistinct(s.utxos + own, s.spent + Points(tx));
      }
    }
  }

  lemma {:induction false} OwnAreDistinct(env: Env, h: Hash, tx: Tx, n: nat)
    requires n <= |tx.outputs|
    ensures Distinct(OwnOutputs(env, h, tx, n))
    ensures forall u :: u in OwnOutputs(env, h, tx, n) ==> u.n < n
  {
    if n > 0 {
      OwnAreDistinct(env, h, tx, n - 1);
      var own := OwnOutputs(env, h, tx, n - 1);
      assert forall i :: 0 <= i < |own| ==> own[i] in own;
    }
  }

  lemma {:induction false} UnspentIsDistinct(us: seq<Outpoint>, spent: set<Outpoint>)
    requires Distinct(us)
    ensures Distinct(Unspent(us, spent))
  {
    if us != [] {
      var front, u := us[..|us| - 1], us[|us| - 1];
      UnspentIsDistinct(front, spent);
      var r := Unspent(front, spent);
      assert forall i :: 0 <= i < |r| ==> r[i] in r;
      assert u !in front;
    }
  }

  /** All inputs of transactions that are not invalid are spent, and nothing else. */
  lemma {:induction false} SpentAreInputs(env: Env, hs: seq<Hash>)
    requires (forall h :: h in hs ==> h in env.all) && Distinct(hs)
    ensures forall p :: p in Fold(env, hs).spent <==>
      exists h :: h in hs && h !in Fold(env, hs).invalid && p in Points(env.all[h])
  {
    if hs != [] {
      var front, h := hs[..|hs| - 1], hs[|hs| - 1];
      SpentAreInputs(env, front);
      UtxosAreOwn(env, front);
      assert h in hs && h !in front;
      assert forall g :: g in hs <==> g in front || g == h;
      var s, t := Fold(env, front), Fold(env, hs);
      assert forall g :: g in front ==> (g in s.invalid <==> g in t.invalid);
      assert h in t.invalid <==> Judge(env, s, env.all[h]) == Invalid;
    }
  }

  /** A valid unconfirmed transaction spends nothing that an earlier valid one spends. */
  lemma NoDoubleSpend(env: Env, hs: seq<Hash>, i: nat, j: nat)
    requires (forall h :: h in hs ==> h in env.all) && Distinct(hs) && i < j < |hs|
    requires env.all[hs[j]].height == TX_UNCONFIRMED
    requires hs[i] !in Fold(env, hs).invalid && hs[j] !in Fold(env, hs).invalid
    ensures Points(env.all[hs[i]]) !! Points(env.all[hs[j]])
  {
    hide Fold, Points;
    var before, h := hs[..j], hs[j];
    assert hs[..j + 1] == before + [h];
    assert hs[i] == before[i] && hs[i] in before && h in before + [h];
    InvalidStays(env, hs, j);
    InvalidStays(env, hs, j + 1);
    SpentAreInputs(env, before);
    FoldStep(env, before, h);
    var s := Fold(env, before);
    assert !Conflicts(s, env.all[h]);
    NoConflict(s, env.all[h]);
    assert forall p :: p in Points(env.all[hs[i]]) ==> p in s.spent;
  }

  lemma NoConflict(s: State, tx: Tx)
    requires !Conflicts(s, tx)
    ensures Points(tx) !! s.spent
  {
  }

  lemma FoldStep(env: Env, hs: seq<Hash>, h: Hash)
    requires (forall g :: g in hs ==> g in env.all) && h in env.all
    ensures Listed(env, Fold(env, hs)) && (forall g :: g in hs + [h] ==> g in env.all)
    ensures Fold(env, hs + [h]) == Step(env, Fold(env, hs), h)
  {
    assert (hs + [h])[..|hs|] == hs;
  }

  /** What was invalid stays invalid, and nothing earlier becomes so. */
  lemma {:induction false} InvalidStays(env: Env, hs: seq<Hash>, k: nat)
    requires (forall h :: h in hs ==> h in env.all) && Distinct(hs) && k <= |hs|
    ensures forall h :: h in hs[..k] ==> (h in Fold(env, hs[..k]).invalid <==> h in Fold(env, hs).invalid)
    ensures forall h :: h in hs[..k] ==> (h in Fold(env, hs[..k]).pending <==> h in Fold(env, hs).pending)
    decreases |hs|
  {
    if k == |hs| {
      assert hs[..k] == hs;
    } else {
      var front, h := hs[..|hs| - 1], hs[|hs| - 1];
      InvalidStays(env, front, k);
      assert front[..k] == hs[..k];
      assert h in hs && h !in hs[..k];
    }
  }

  // ----- Which outputs are unspent -----

  /** u is one of the wallet's own outputs of a listed transaction. */
  predicate Own(env: Env, hs: seq<Hash>, u: Outpoint)
    requires forall h :: h in hs ==> h in env.all
  {
    u.hash in hs && u.n < |env.all[u.hash].outputs| && Ours(env, env.all[u.hash].outputs[u.n])
  }

  predicate AllConfirmed(env: Env, hs: seq<Hash>)
    requires forall h :: h in hs ==> h in env.all
  {
    forall h :: h in hs ==> env.all[h].height != TX_UNCONFIRMED
  }

  predicate IsSpent(env: Env, hs: seq<Hash>, p: Outpoint)
    requires forall h :: h in hs ==> h in env.all
  {
    exists h :: h in hs && p in Points(env.all[h])
  }

  /** Of confirmed transactions, in whatever order, exactly the own outputs that none of them spends are unspent. */
  lemma {:induction false} ConfirmedUtxos(env: Env, hs: seq<Hash>)
    requires (forall h :: h in hs ==> h in env.all) && AllConfirmed(env, hs) && Distinct(hs)
    ensures forall u :: u in Fold(env, hs).utxos <==> Own(env, hs, u) && !IsSpent(env, hs, u)
    ensures forall p :: p in Fold(env, hs).spent <==> IsSpent(env, hs, p)
  {
    if hs != [] {
      var front, h := hs[..|hs| - 1], hs[|hs| - 1];
      ConfirmedUtxos(env, front);
      assert h in hs && h !in front;
      assert forall g :: g in hs <==> g in front || g == h;
      var s, t, tx := Fold(env, front), Fold(env, hs), env.all[h];
      assert Judge(env, s, tx) == Credited;
      OwnAreKnown(env, h, |tx.outputs|);
      forall p
        ensures p in t.spent <==> IsSpent(env, hs, p)
      {
        assert IsSpent(env, hs, p) <==> IsSpent(env, front, p) || p in Points(tx);
      }
    }
  }

  /** The unspent outputs and the balance of confirmed transactions do not depend on their order. */
  lemma OrderDoesNotMatter(env: Env, hs: seq<Hash>, gs: seq<Hash>)
    requires (forall h :: h in hs ==> h in env.all) && AllConfirmed(env, hs)
    requires Distinct(hs) && Distinct(gs) && (forall h :: h in hs <==> h in gs)
    ensures forall u :: u in Fold(env, hs).utxos <==> u in Fold(env, gs).utxos
    ensures Fold(env, hs).balance == Fold(env, gs).balance
  {
    ConfirmedUtxos(env, hs);
    ConfirmedUtxos(env, gs);
    forall u
      ensures u in Fold(env, hs).utxos <==> u in Fold(env, gs).utxos
    {
      assert Own(env, hs, u) <==> Own(env, gs, u);
      assert IsSpent(env, hs, u) <==> IsSpent(env, gs, u);
    }
    UtxosAreOwn(env, hs);
    UtxosAreOwn(env, gs);
    BooksBalance(env, hs);
    BooksBalance(env, gs);
    SumOfSame(env.all, Fold(env, hs).utxos, Fold(env, gs).utxos);
  }

  lemma {:induction false} SumOfSame(all: map<Hash, Tx>, us: seq<Outpoint>, vs: seq<Outpoint>)
    requires Distinct(us) && Distinct(vs) && forall u :: u in us <==> u in vs
    requires forall u :: u in us ==> Known(all, u)
    ensures Sum(all, us) == Sum(all, vs)
  {
    if us == [] {
      SomeMember(vs);
    } else {
      var front, u := us[..|us| - 1], us[|us| - 1];
      assert u in us && u !in front;
      var k :| 0 <= k < |vs| && vs[k] == u;
      var rest := vs[..k] + vs[k + 1..];
      assert vs == vs[..k] + [u] + vs[k + 1..];
      assert Distinct(rest) && u !in rest;
      forall v
        ensures v in front <==> v in rest
      {
        assert v in us <==> v in vs;
        assert us == front + [u];
        assert v in us <==> v in front || v == u;
        assert v in vs <==> v in rest || v == u;
      }
      SumOfSame(all, front, rest);
      SumTakesOut(all, vs, k);
    }
  }

  lemma SomeMember(us: seq<Outpoint>)
    ensures us != [] <==> exists u :: u in us
  {
    assert us != [] ==> us[0] in us;
  }

  lemma {:induction false} SumTakesOut(all: map<Hash, Tx>, us: seq<Outpoint>, k: nat)
    requires (forall u :: u in us ==> Known(all, u)) && k < |us|
    ensures (forall u :: u in us[..k] + us[k + 1..] ==> Known(all, u)) && us[k] in us
    ensures Sum(all, us) == Sum(all, us[..k] + us[k + 1..]) + Amount(all, us[k])
  {
    var rest := us[..k] + us[k + 1..];
    if k == |us| - 1 {
      assert rest == us[..k];
    } else {
      var front := us[..|us| - 1];
      SumTakesOut(all, front, k);
      assert rest[..|rest| - 1] == front[..k] + front[k + 1..];
    }
  }

  // ----- What makes a transaction invalid or pending -----

  /** The verdict on entry k, from the books of the entries before it. */
  lemma VerdictAt(env: Env, hs: seq<Hash>, k: nat)
    requires (forall h :: h in hs ==> h in env.all) && Distinct(hs) && k < |hs|
    ensures (forall h :: h in hs[..k] ==> h in env.all) && hs[k] in env.all
    ensures var v := Judge(env, Fold(env, hs[..k]), env.all[hs[k]]);
      (hs[k] in Fold(env, hs).invalid <==> v == Invalid) && (hs[k] in Fold(env, hs).pending <==> v == Pending)
  {
    hide Judge, Fold, Step;
    var front, h := hs[..k], hs[k];
    assert hs[..k + 1] == front + [h] && h in hs;
    assert forall g :: g in front ==> g in hs;
    FoldStep(env, front, h);
    InvalidStays(env, hs, k + 1);
    UtxosAreOwn(env, front);
    assert h !in front;
    assert h in hs[..k + 1];
    StepVerdict(env, Fold(env, front), h);
  }

  lemma StepVerdict(env: Env, s: State, h: Hash)
    requires h in env.all && Listed(env, s) && h !in s.invalid && h !in s.pending
    ensures h in Step(env, s, h).invalid <==> Judge(env, s, env.all[h]) == Invalid
    ensures h in Step(env, s, h).pending <==> Judge(env, s, env.all[h]) == Pending
  {
  }

  /** Of the entries before k, those that are invalid or pending, and what the others spend. */
  lemma BooksBefore(env: Env, hs: seq<Hash>, k: nat)
    requires (forall h :: h in hs ==> h in env.all) && Distinct(hs) && k < |hs|
    ensures forall h :: h in hs[..k] ==> h in env.all
    ensures var s, t := Fold(env, hs[..k]), Fold(env, hs);
      (forall g :: g in s.invalid <==> exists j :: 0 <= j < k && hs[j] == g && g in t.invalid) &&
      (forall g :: g in s.pending <==> exists j :: 0 <= j < k && hs[j] == g && g in t.pending) &&
      forall p :: p in s.spent <==>
        exists j :: 0 <= j < k && hs[j] !in t.invalid && Spends(env.all[hs[j]], p)
  {
    hide Fold;
    var front := hs[..k];
    assert forall g :: g in front ==> g in hs;
    UtxosAreOwn(env, front);
    SpentAreInputs(env, front);
    InvalidStays(env, hs, k);
    var s, t := Fold(env, front), Fold(env, hs);
    assert forall j :: 0 <= j < k ==> front[j] == hs[j] && hs[j] in front;
    forall p
      ensures p in s.spent <==> exists j :: 0 <= j < k && hs[j] !in t.invalid && Spends(env.all[hs[j]], p)
    {
      if p in s.spent {
        var h :| h in front && h !in s.invalid && p in Points(env.all[h]);
        var j :| 0 <= j < k && front[j] == h;
        assert hs[j] !in t.invalid && Spends(env.all[hs[j]], p);
      }
      if j :| 0 <= j < k && hs[j] !in t.invalid && Spends(env.all[hs[j]], p) {
        assert hs[j] in front && p in Points(env.all[hs[j]]);
      }
    }
  }

  /** p is among the inputs. */
  predicate Spends(tx: Tx, p: Outpoint) {
    exists i :: 0 <= i < |tx.inputs| && tx.inputs[i].point == p
  }

  /** Exactly the unconfirmed transactions are invalid that share an input with an earlier one that is not, or spend
      from an earlier one that is. */
  lemma InvalidIff(env: Env, hs: seq<Hash>, k: nat)
    requires (forall h :: h in hs ==> h in env.all) && Distinct(hs) && k < |hs|
    ensures hs[k] in env.all
    ensures var invalid, tx := Fold(env, hs).invalid, env.all[hs[k]];
      hs[k] in invalid <==>
        tx.height == 0x7fff_ffff &&
        exists i, j :: 0 <= i < |tx.inputs| && 0 <= j < k &&
          if hs[j] in invalid then tx.inputs[i].point.hash == hs[j]
          else Spends(env.all[hs[j]], tx.inputs[i].point)
  {
    hide Fold;
    VerdictAt(env, hs, k);
    BooksBefore(env, hs, k);
    var s, tx, invalid := Fold(env, hs[..k]), env.all[hs[k]], Fold(env, hs).invalid;
    if Conflicts(s, tx) {
      var i :| 0 <= i < |tx.inputs| && (tx.inputs[i].point in s.spent || tx.inputs[i].point.hash in s.invalid);
      var j :| 0 <= j < k &&
        if hs[j] in invalid then tx.inputs[i].point.hash == hs[j] else Spends(env.all[hs[j]], tx.inputs[i].point);
    }
    if i, j :| 0 <= i < |tx.inputs| && 0 <= j < k && (if hs[j] in invalid then tx.inputs[i].point.hash == hs[j]
                                                      else Spends(env.all[hs[j]], tx.inputs[i].point)) {
      assert tx.inputs[i].point in s.spent || tx.inputs[i].point.hash in s.invalid;
      assert Conflicts(s, tx);
    }
  }

  /** Exactly the unconfirmed transactions are pending that are not invalid and too large, or have dust, or an input
      that may be replaced, that is not final yet, or that spends from an earlier pending one. */
  lemma PendingIff(env: Env, hs: seq<Hash>, k: nat)
    requires (forall h :: h in hs ==> h in env.all) && Distinct(hs) && k < |hs|
    ensures hs[k] in env.all
    ensures var pending, tx := Fold(env, hs).pending, env.all[hs[k]];
      hs[k] in pending <==>
        tx.height == 0x7fff_ffff && hs[k] !in Fold(env, hs).invalid &&
        (tx.size > 100_000 || (exists o :: o in tx.outputs && o.amount < 546) ||
         exists i :: i in tx.inputs &&
           (i.sequence < 0xffff_fffe ||
            (i.sequence < 0xffff_ffff && tx.lockTime < 500_000_000 && tx.lockTime > env.height + 1) ||
            (i.sequence < 0xffff_ffff && tx.lockTime > env.now) ||
            exists j :: 0 <= j < k && hs[j] == i.point.hash && hs[j] in pending))
  {
    hide Fold, Conflicts;
    VerdictAt(env, hs, k);
    BooksBefore(env, hs, k);
    var s, tx := Fold(env, hs[..k]), env.all[hs[k]];
    WaitsIff(env, s, tx);
  }

  lemma WaitsIff(env: Env, s: State, tx: Tx)
    ensures Waits(env, s, tx) <==>
      tx.size > 100_000 || (exists o :: o in tx.outputs && o.amount < 546) ||
      exists i :: i in tx.inputs &&
        (i.sequence < 0xffff_fffe ||
         (i.sequence < 0xffff_ffff && tx.lockTime < 500_000_000 && tx.lockTime > env.height + 1) ||
         (i.sequence < 0xffff_ffff && tx.lockTime > env.now) ||
         i.point.hash in s.pending)
  {
    if i :| 0 <= i < |tx.inputs| && InputWaits(env, s, tx, tx.inputs[i]) {
      assert tx.inputs[i] in tx.inputs;
    }
    if i :| i in tx.inputs && InputWaits(env, s, tx, i) {
      var k :| 0 <= k < |tx.inputs| && tx.inputs[k] == i;
      assert InputWaits(env, s, tx, tx.inputs[k]);
    }
    if o :| o in tx.outputs && o.amount < 546 {
      var k :| 0 <= k < |tx.outputs| && tx.outputs[k] == o;
      assert tx.outputs[k].amount < TX_MIN_OUTPUT_AMOUNT;
    }
    if k :| 0 <= k < |tx.outputs| && tx.outputs[k].amount < TX_MIN_OUTPUT_AMOUNT {
      assert tx.outputs[k] in tx.outputs;
    }
  }

  /** Entry k adds its outputs. */
  predicate Counts(env: Env, hs: seq<Hash>, k: nat)
    requires (forall h :: h in hs ==> h in env.all) && k < |hs|
  {
    hs[k] !in Fold(env, hs).invalid && hs[k] !in Fold(env, hs).pending
  }

  /** u is the wallet's own output of an entry that counts. */
  predicate Received(env: Env, hs: seq<Hash>, u: Outpoint)
    requires forall h :: h in hs ==> h in env.all
  {
    IsOwn(env, u) && exists k :: 0 <= k < |hs| && hs[k] == u.hash && Counts(env, hs, k)
  }

  /** Nothing is dropped until an entry counts: then whatever a valid entry spends up to there. */
  predicate Dropped(env: Env, hs: seq<Hash>, u: Outpoint)
    requires forall h :: h in hs ==> h in env.all
  {
    exists j, k :: 0 <= j <= k < |hs| && Counts(env, hs, k) && hs[j] !in Fold(env, hs).invalid &&
                   hs[j] in env.all && Spends(env.all[hs[j]], u)
  }

  /** An output is unspent exactly when it is the wallet's own, of a transaction that counts, and nothing valid spends
      it up to the last one that counts. */
  lemma {:induction false} UtxosIff(env: Env, hs: seq<Hash>, u: Outpoint)
    requires (forall h :: h in hs ==> h in env.all) && Distinct(hs)
    ensures u in Fold(env, hs).utxos <==> Received(env, hs, u) && !Dropped(env, hs, u)
  {
    if hs == [] {
      StartIs(env);
    } else {
      hide Fold, Step, Judge, Counts, Received, Dropped, IsOwn, Spends;
      var front, h := hs[..|hs| - 1], hs[|hs| - 1];
      FrontOf(env, hs);
      hide Distinct;
      UtxosIff(env, front, u);
      FoldStep(env, front, h);
      CountsIs(env, hs);
      ReceivedEarlier(env, hs, u);
      DroppedEarlier(env, hs, u);
      SpentAreInputs(env, hs);
      StepUtxos(env, Fold(env, front), h, u);
      if Counts(env, hs, |front|) {
        SpentDropped(env, hs, u);
      }
    }
  }

  /** What later entries do not change. */
  lemma EarlierSame(env: Env, hs: seq<Hash>, k: nat)
    requires (forall h :: h in hs ==> h in env.all) && Distinct(hs) && k + 1 < |hs|
    ensures var front := hs[..|hs| - 1];
      (forall h :: h in front ==> h in env.all) && front[k] == hs[k] &&
      (front[k] in Fold(env, front).invalid <==> hs[k] in Fold(env, hs).invalid) &&
      (Counts(env, front, k) <==> Counts(env, hs, k))
  {
    hide Fold;
    var front := hs[..|hs| - 1];
    assert forall g :: g in front ==> g in hs;
    assert front[k] == hs[k] && hs[k] in hs[..|hs| - 1];
    InvalidStays(env, hs, |hs| - 1);
  }

  lemma FrontOf(env: Env, hs: seq<Hash>)
    requires (forall h :: h in hs ==> h in env.all) && Distinct(hs) && hs != []
    ensures var front, h := hs[..|hs| - 1], hs[|hs| - 1];
      hs == front + [h] && h in env.all && (forall g :: g in front ==> g in env.all) && Distinct(front)
  {
  }

  lemma ReceivedEarlier(env: Env, hs: seq<Hash>, u: Outpoint)
    requires (forall h :: h in hs ==> h in env.all) && Distinct(hs) && hs != []
    ensures var last := |hs| - 1; var front := hs[..last];
      (forall h :: h in front ==> h in env.all) &&
      (Received(env, hs, u) <==>
        Received(env, front, u) || (u.hash == hs[last] && IsOwn(env, u) && Counts(env, hs, last)))
  {
    hide Fold, IsOwn, Counts;
    var last := |hs| - 1;
    var front := hs[..last];
    assert forall g :: g in front ==> g in hs;
    if Received(env, front, u) {
      var k :| 0 <= k < |front| && front[k] == u.hash && Counts(env, front, k);
      EarlierSame(env, hs, k);
    }
    if Received(env, hs, u) {
      var k :| 0 <= k < |hs| && hs[k] == u.hash && Counts(env, hs, k);
      if k < last {
        EarlierSame(env, hs, k);
      }
    }
  }

  lemma DroppedEarlier(env: Env, hs: seq<Hash>, u: Outpoint)
    requires (forall h :: h in hs ==> h in env.all) && Distinct(hs) && hs != []
    ensures var last := |hs| - 1; var front := hs[..last];
      (forall h :: h in front ==> h in env.all) && (Dropped(env, front, u) ==> Dropped(env, hs, u)) &&
      (!Counts(env, hs, last) ==> (Dropped(env, hs, u) <==> Dropped(env, front, u)))
  {
    hide Fold, Spends, Counts;
    var last := |hs| - 1;
    var front := hs[..last];
    assert forall g :: g in front ==> g in hs;
    if Dropped(env, front, u) {
      var j, k :| 0 <= j <= k < |front| && Counts(env, front, k) && front[j] !in Fold(env, front).invalid &&
        front[j] in env.all && Spends(env.all[front[j]], u);
      EarlierSame(env, hs, j);
      EarlierSame(env, hs, k);
    }
    if Dropped(env, hs, u) && !Counts(env, hs, last) {
      var j, k :| 0 <= j <= k < |hs| && Counts(env, hs, k) && hs[j] !in Fold(env, hs).invalid &&
        hs[j] in env.all && Spends(env.all[hs[j]], u);
      EarlierSame(env, hs, j);
      EarlierSame(env, hs, k);
    }
  }

  /** When the last entry counts, exactly what is spent is dropped. */
  lemma SpentDropped(env: Env, hs: seq<Hash>, u: Outpoint)
    requires (forall h :: h in hs ==> h in env.all) && Distinct(hs) && hs != [] && Counts(env, hs, |hs| - 1)
    requires forall p :: p in Fold(env, hs).spent <==>
      exists h :: h in hs && h !in Fold(env, hs).invalid && p in Points(env.all[h])
    ensures Dropped(env, hs, u) <==> u in Fold(env, hs).spent
  {
    hide Fold;
    if u in Fold(env, hs).spent {
      var h :| h in hs && h !in Fold(env, hs).invalid && u in Points(env.all[h]);
      var j :| 0 <= j < |hs| && hs[j] == h;
      assert Spends(env.all[hs[j]], u);
    }
    if Dropped(env, hs, u) {
      var j, k :| 0 <= j <= k < |hs| && Counts(env, hs, k) && hs[j] !in Fold(env, hs).invalid &&
        hs[j] in env.all && Spends(env.all[hs[j]], u);
      assert hs[j] in hs && u in Points(env.all[hs[j]]);
    }
  }

  lemma StepUtxos(env: Env, s: State, h: Hash, u: Outpoint)
    requires h in env.all && Listed(env, s)
    ensures var t := Step(env, s, h);
      if Judge(env, s, env.all[h]) == Credited
      then u in t.utxos <==> (u in s.utxos || (u.hash == h && IsOwn(env, u))) && u !in t.spent
      else t.utxos == s.utxos
  {
    hide Sum, OwnOutputs;
    OwnAreKnown(env, h, |env.all[h].outputs|);
  }

  /** An output of a known transaction to one of the wallet's addresses. */
  predicate IsOwn(env: Env, u: Outpoint) {
    u.hash in env.all && u.n < |env.all[u.hash].outputs| &&
    env.all[u.hash].outputs[u.n].address != "" && env.all[u.hash].outputs[u.n].address in env.addrs
  }

  // ----- The totals -----

  /** By how much a series of balances goes up in all. */
  function Rises(hist: seq<nat>): nat {
    var n := |hist|;
    if n < 2 then 0
    else Rises(hist[..n - 1]) + (if hist[n - 1] > hist[n - 2] then hist[n - 1] - hist[n - 2] else 0)
  }

  /** What was received in all is by how much the balance went up, from 0 on. */
  lemma {:induction false} ReceivedIsRises(env: Env, hs: seq<Hash>)
    requires forall h :: h in hs ==> h in env.all
    ensures Fold(env, hs).received == Rises([0] + Fold(env, hs).hist)
  {
    if hs != [] {
      var front, h := hs[..|hs| - 1], hs[|hs| - 1];
      assert hs == front + [h] && h in hs;
      ReceivedIsRises(env, front);
      FoldStep(env, front, h);
      LastEntry(env, front);
      RisesStep(env, Fold(env, front), h);
    }
  }

  lemma LastEntry(env: Env, hs: seq<Hash>)
    requires forall h :: h in hs ==> h in env.all
    ensures var s := Fold(env, hs); var hist := [0] + s.hist; hist[|hist| - 1] == s.balance
  {
    BooksBalance(env, hs);
    if hs != [] {
      HistoryIsPrefixBalance(env, hs, |hs| - 1);
      assert hs[..|hs|] == hs;
    }
  }

  lemma RisesStep(env: Env, s: State, h: Hash)
    requires h in env.all && Listed(env, s) && var hist := [0] + s.hist; hist[|hist| - 1] == s.balance
    requires s.received == Rises([0] + s.hist)
    ensures var t := Step(env, s, h); t.received == Rises([0] + t.hist)
  {
    hide Step, Rises;
    StepHistory(env, s, h);
    var t := Step(env, s, h);
    assert [0] + t.hist == ([0] + s.hist) + [t.balance];
    RisesOne([0] + s.hist, t.balance);
  }

  lemma StepHistory(env: Env, s: State, h: Hash)
    requires h in env.all && Listed(env, s)
    ensures var t := Step(env, s, h);
      t.hist == s.hist + [t.balance] &&
      t.received == s.received + if t.balance > s.balance then t.balance - s.balance else 0
  {
    hide Sum, OwnOutputs, Unspent, Judge;
  }

  lemma RisesOne(hist: seq<nat>, b: nat)
    requires hist != []
    ensures var last := hist[|hist| - 1];
      Rises(hist + [b]) == Rises(hist) + if b > last then b - last else 0
  {
    assert (hist + [b])[..|hist|] == hist;
  }

  /** The addresses in use are those that the outputs of the entries that count pay to. */
  lemma {:induction false} UsedIff(env: Env, hs: seq<Hash>, a: Address)
    requires (forall h :: h in hs ==> h in env.all) && Distinct(hs)
    ensures a in Fold(env, hs).used <==>
      exists k :: 0 <= k < |hs| && Counts(env, hs, k) && hs[k] in env.all && PaysAddress(env.all[hs[k]], a)
  {
    hide Fold, Counts, PaysAddress;
    if hs == [] {
      StartIs(env);
    } else {
      var front, h := hs[..|hs| - 1], hs[|hs| - 1];
      assert hs == front + [h] && h in hs && forall g :: g in front ==> g in hs;
      UsedIff(env, front, a);
      FoldStep(env, front, h);
      VerdictAt(env, hs, |front|);
      StepUsed(env, Fold(env, front), h, a);
      CountsIs(env, hs);
      if k :| 0 <= k < |front| && Counts(env, front, k) && front[k] in env.all && PaysAddress(env.all[front[k]], a) {
        EarlierSame(env, hs, k);
      }
      if k :| 0 <= k < |hs| && Counts(env, hs, k) && hs[k] in env.all && PaysAddress(env.all[hs[k]], a) {
        if k < |front| {
          EarlierSame(env, hs, k);
        }
      }
    }
  }

  lemma CountsIs(env: Env, hs: seq<Hash>)
    requires (forall h :: h in hs ==> h in env.all) && Distinct(hs) && hs != []
    ensures (forall h :: h in hs[..|hs| - 1] ==> h in env.all) && hs[|hs| - 1] in env.all
    ensures Counts(env, hs, |hs| - 1) <==> Judge(env, Fold(env, hs[..|hs| - 1]), env.all[hs[|hs| - 1]]) == Credited
  {
    hide Fold, Judge;
    VerdictAt(env, hs, |hs| - 1);
  }

  predicate PaysAddress(tx: Tx, a: Address) {
    a != "" && exists o :: o in tx.outputs && o.address == a
  }

  lemma StepUsed(env: Env, s: State, h: Hash, a: Address)
    requires h in env.all && Listed(env, s)
    ensures a in Step(env, s, h).used <==>
      a in s.used || (Judge(env, s, env.all[h]) == Credited && PaysAddress(env.all[h], a))
  {
    hide Sum, OwnOutputs, Unspent;
    var tx := env.all[h];
    if PaysAddress(tx, a) {
      var o :| o in tx.outputs && o.address == a;
      var j :| 0 <= j < |tx.outputs| && tx.outputs[j] == o;
    }
    assert a in UsedAddresses(tx) <==> PaysAddress(tx, a);
  }

  // ----- Unspent outputs that are spent -----

  /** The inputs of the pending transactions at the end of the list. */
  function TrailingInputs(env: Env, hs: seq<Hash>): set<Outpoint>
    requires forall h :: h in hs ==> h in env.all
  {
    if hs == [] then {} else
      var front, h := hs[..|hs| - 1], hs[|hs| - 1];
      assert h in hs;
      match Judge(env, Fold(env, front), env.all[h])
      case Invalid => TrailingInputs(env, front)
      case Pending => TrailingInputs(env, front) + Points(env.all[h])
      case Credited => {}
  }

  /** An output counted as unspent is among the spent ones exactly when a pending transaction after the last
      credited one spends it. */
  lemma {:induction false} OverlapIsTrailing(env: Env, hs: seq<Hash>)
    requires forall h :: h in hs ==> h in env.all
    ensures forall u :: u in Fold(env, hs).utxos ==>
      (u in Fold(env, hs).spent <==> u in TrailingInputs(env, hs))
  {
    if hs != [] {
      OverlapIsTrailing(env, hs[..|hs| - 1]);
      assert hs[|hs| - 1] in hs;
    }
  }

  lemma StartIs(env: Env)
    ensures Fold(env, []) == START
  {
  }

  /** A confirmed transaction without inputs, whose first output is the wallet's. */
  lemma CreditStep(env: Env, s: State, h: Hash)
    requires h in env.all && Listed(env, s) && s == START
    requires var tx := env.all[h]; tx.height != TX_UNCONFIRMED && tx.inputs == [] && |tx.outputs| > 0 &&
                                   Ours(env, tx.outputs[0])
    ensures var t := Step(env, s, h); Outpoint(h, 0) in t.utxos && t.spent == {} && t.invalid == {}
  {
    hide Sum, OwnOutputs;
    var tx := env.all[h];
    OwnAreKnown(env, h, |tx.outputs|);
    assert Points(tx) == {};
    assert Outpoint(h, 0) in OwnOutputs(env, h, tx, |tx.outputs|);
  }

  /** An unconfirmed transaction that may be replaced. */
  lemma PendingStep(env: Env, s: State, h: Hash)
    requires h in env.all && Listed(env, s) && s.spent == {} && s.invalid == {}
    requires var tx := env.all[h]; tx.height == TX_UNCONFIRMED && |tx.inputs| > 0 && tx.inputs[0].sequence == 0
    ensures var t := Step(env, s, h); t.utxos == s.utxos && env.all[h].inputs[0].point in t.spent
  {
    hide Sum, OwnOutputs;
    var tx := env.all[h];
    assert InputWaits(env, s, tx, tx.inputs[0]);
    assert Judge(env, s, tx) == Pending;
    assert tx.inputs[0].point in Points(tx);
  }

  /** Wherever the one receives an output and the other spends it, the two overlap. */
  lemma SpendOverlaps(env: Env, g: Hash, h: Hash)
    requires g in env.all && h in env.all
    requires var tx := env.all[g]; tx.height != TX_UNCONFIRMED && tx.inputs == [] && |tx.outputs| > 0 &&
                                   Ours(env, tx.outputs[0])
    requires var tx := env.all[h]; tx.height == TX_UNCONFIRMED && |tx.inputs| > 0 && tx.inputs[0].sequence == 0 &&
                                   tx.inputs[0].point == Outpoint(g, 0)
    ensures Outpoint(g, 0) in Fold(env, [g, h]).utxos && Outpoint(g, 0) in Fold(env, [g, h]).spent
  {
    hide Fold, Step;
    FoldStep(env, [], g);
    assert [] + [g] == [g];
    FoldStep(env, [g], h);
    assert [g] + [h] == [g, h];
    StartIs(env);
    CreditStep(env, START, g);
    PendingStep(env, Fold(env, [g]), h);
  }

  /** Such a list: an output is received, and a replaceable transaction spends it. */
  lemma PendingSpendOverlaps()
    ensures var received := Tx([], [Output(1000, "a")], 0, 100, 1, 0);
      var spend := Tx([Input(Outpoint(1, 0), 0)], [], 0, 100, TX_UNCONFIRMED, 0);
      var env := Env(map[1 := received, 2 := spend], {"a"}, 1, 0);
      Outpoint(1, 0) in Fold(env, [1, 2]).utxos && Outpoint(1, 0) in Fold(env, [1, 2]).spent
  {
    var received := Tx([], [Output(1000, "a")], 0, 100, 1, 0);
    var spend := Tx([Input(Outpoint(1, 0), 0)], [], 0, 100, TX_UNCONFIRMED, 0);
    var env := Env(map[1 := received, 2 := spend], {"a"}, 1, 0);
    hide Fold, Step;
    SpendOverlaps(env, 1, 2);
  }
}
