/** Paying: which unspent outputs a new transaction spends, its fee, and its change. */
module Payments {
  import opened Ledger
  import opened Words
  import opened VarInts
  import Transactions

  const TX_FEE_PER_KB: nat := 1000
  const TX_OUTPUT_SIZE: nat := 34

  type Pay = Transactions.TxOut

  /** What a payment draws on: the known transactions, the unspent outputs, the balance and the fee rate. */
  datatype Purse = Purse(all: map<Hash, Tx>, utxos: seq<Outpoint>, balance: nat, feePerKb: nat)

  datatype Payment = Payment(inputs: seq<Outpoint>, outputs: seq<Pay>)

  // ----- Sizes and fees -----

  function TxFee(feePerKb: nat, size: nat): nat {
    var standardFee := size * TX_FEE_PER_KB / 1000;
    var fee := (size * feePerKb / 1000 + 99) / 100 * 100;
    if fee > standardFee then fee else standardFee
  }

  function MinOutputAmount(feePerKb: nat): nat {
    var amount := (TX_MIN_OUTPUT_AMOUNT * feePerKb + TX_FEE_PER_KB - 1) / TX_FEE_PER_KB;
    if amount > TX_MIN_OUTPUT_AMOUNT then amount else TX_MIN_OUTPUT_AMOUNT
  }

  /** The size of a transaction whose inputs are not signed yet. */
  function Size(inputs: nat, outs: seq<Pay>): nat {
    8 + VarIntSize(inputs) + VarIntSize(|outs|) + inputs * Transactions.TX_INPUT_SIZE + Transactions.OutputsSize(outs)
  }

  function Total(outs: seq<Pay>): nat {
    if outs == [] then 0 else Total(outs[..|outs| - 1]) + outs[|outs| - 1].amount
  }

  /** The unspent outputs whose transaction is known. */
  function Payable(all: map<Hash, Tx>, us: seq<Outpoint>): (ps: seq<Outpoint>)
    ensures forall p :: p in ps <==> p in us && Known(all, p)
  {
    if us == [] then []
    else Payable(all, us[..|us| - 1]) + if Known(all, us[|us| - 1]) then [us[|us| - 1]] else []
  }

  function Purchasing(w: Purse, k: nat): nat
    requires k <= |Payable(w.all, w.utxos)|
  {
    assert forall p :: p in Payable(w.all, w.utxos)[..k] ==> p in Payable(w.all, w.utxos);
    Sum(w.all, Payable(w.all, w.utxos)[..k])
  }

  /** The fee of k inputs and a change output; once there are inputs, what is left of the balance is rounded
      down to a multiple of 100. */
  function FeeAmount(w: Purse, outs: seq<Pay>, k: nat): nat {
    var fee := TxFee(w.feePerKb, Size(k, outs) + TX_OUTPUT_SIZE);
    if k > 0 && w.balance > Total(outs) + fee then fee + (w.balance - (Total(outs) + fee)) % 100 else fee
  }

  predicate Enough(w: Purse, outs: seq<Pay>, k: nat)
    requires k <= |Payable(w.all, w.utxos)|
  {
    Purchasing(w, k) == Total(outs) + FeeAmount(w, outs, k) ||
    Purchasing(w, k) >= Total(outs) + FeeAmount(w, outs, k) + MinOutputAmount(w.feePerKb)
  }

  predicate TooLarge(outs: seq<Pay>, k: nat) {
    Size(k, outs) + TX_OUTPUT_SIZE > TX_MAX_SIZE
  }

  datatype Selection = Oversize | Selected(count: nat)

  /** How many inputs are taken: as many as it takes to pay, or all, unless the transaction gets too large. */
  function Select(w: Purse, outs: seq<Pay>, k: nat): (s: Selection)
    requires k <= |Payable(w.all, w.utxos)|
    ensures s.Selected? ==> k <= s.count <= |Payable(w.all, w.utxos)|
    decreases |Payable(w.all, w.utxos)| - k
  {
    if k == |Payable(w.all, w.utxos)| then Selected(k)
    else if TooLarge(outs, k + 1) then Oversize
    else if Enough(w, outs, k + 1) then Selected(k + 1)
    else Select(w, outs, k + 1)
  }

  datatype Outcome = TooMany | Insufficient | Paid(payment: Payment)

  /** The payment before its outputs are shuffled. */
  function Pays(w: Purse, outs: seq<Pay>, changeScript: seq<Byte>): Outcome {
    match Select(w, outs, 0)
    case Oversize => TooMany
    case Selected(k) =>
      var left := Purchasing(w, k) - (Total(outs) + FeeAmount(w, outs, k));
      var inputs := Payable(w.all, w.utxos)[..k];
      if |outs| < 1 || left < 0 then Insufficient
      else if left > MinOutputAmount(w.feePerKb) then
        Paid(Payment(inputs, outs + [Transactions.TxOut(left, changeScript)]))
      else Paid(Payment(inputs, outs))
  }

  /** The most that one output can pay. */
  function MaxOutputAmount(w: Purse): nat {
    var ps := Payable(w.all, w.utxos);
    var size := 8 + VarIntSize(|ps|) + Transactions.TX_INPUT_SIZE * |ps| + VarIntSize(2) + TX_OUTPUT_SIZE * 2;
    var fee := TxFee(w.feePerKb, size);
    var amount := Sum(w.all, ps);
    if amount > fee then amount - fee else 0
  }

  // ----- What a payment keeps -----

  lemma TxFeeMonotone(feePerKb: nat, size: nat, size': nat)
    requires size <= size'
    ensures TxFee(feePerKb, size) <= TxFee(feePerKb, size')
  {
    assert size * feePerKb <= size' * feePerKb;
    assert size * feePerKb / 1000 <= size' * feePerKb / 1000;
  }

  lemma TotalSnoc(outs: seq<Pay>, o: Pay)
    ensures Total(outs + [o]) == Total(outs) + o.amount
    ensures Transactions.OutputsSize(outs + [o])
         == Transactions.OutputsSize(outs) + 8 + VarIntSize(|o.script|) + |o.script|
  {
    assert (outs + [o])[..|outs|] == outs;
    OutputsSizeSnoc(outs, o);
  }

  lemma {:induction false} OutputsSizeSnoc(outs: seq<Pay>, o: Pay)
    ensures Transactions.OutputsSize(outs + [o])
         == Transactions.OutputsSize(outs) + 8 + VarIntSize(|o.script|) + |o.script|
  {
    if outs == [] {
      assert outs + [o] == [o] && [o][1..] == [];
    } else {
      assert (outs + [o])[1..] == outs[1..] + [o];
      OutputsSizeSnoc(outs[1..], o);
    }
  }

  /** It is the size of any transaction with these outputs and as many inputs, none of them signed. */
  lemma UnsignedSize(tx: Transactions.Tx)
    requires forall k :: 0 <= k < |tx.inputs| ==> tx.inputs[k].signature.Null?
    ensures Transactions.TxSize(tx) == Size(|tx.inputs|, tx.outputs)
  {
    UnsignedInputs(tx.inputs);
  }

  lemma {:induction false} UnsignedInputs(inputs: seq<Transactions.TxIn>)
    requires forall k :: 0 <= k < |inputs| ==> inputs[k].signature.Null?
    ensures Transactions.InputsSize(inputs) == |inputs| * Transactions.TX_INPUT_SIZE
  {
    if inputs != [] {
      UnsignedInputs(inputs[1..]);
    }
  }

  /** The change output, with what it may add to the count of outputs, is no larger than the fee allows for. */
  predicate ChangeFits(outs: seq<Pay>, changeScript: seq<Byte>) {
    VarIntSize(|outs| + 1) + 8 + VarIntSize(|changeScript|) + |changeScript| <= VarIntSize(|outs|) + TX_OUTPUT_SIZE
  }

  /** A payment keeps the requested outputs, adding at most one, and spends different unspent outputs. */
  lemma PaymentKeeps(w: Purse, outs: seq<Pay>, changeScript: seq<Byte>)
    requires Distinct(w.utxos) && Pays(w, outs, changeScript).Paid?
    ensures var p := Pays(w, outs, changeScript).payment;
      (p.outputs == outs || exists o :: p.outputs == outs + [o]) &&
      Distinct(p.inputs) && forall u :: u in p.inputs ==> u in w.utxos && Known(w.all, u)
  {
    hide TxFee, MinOutputAmount, Select, Transactions.OutputsSize, Sum;
    var k := Select(w, outs, 0).count;
    PayableDistinct(w.all, w.utxos);
    var ps := Payable(w.all, w.utxos);
    assert Distinct(ps[..k]);
    assert forall p :: p in ps[..k] ==> p in ps;
  }

  /** The fee is the size itself, or the least multiple of 100 that is at least the size at the rate, whichever
      is more. */
  lemma TxFeeIs(feePerKb: nat, size: nat)
    ensures var f := TxFee(feePerKb, size);
      f >= size && exists q: nat :: size * feePerKb / 1000 <= 100 * q < size * feePerKb / 1000 + 100 && 100 * q <= f &&
                                    (f == size || f == 100 * q)
  {
    var q := (size * feePerKb / 1000 + 99) / 100;
    assert size * 1000 / 1000 == size;
    assert size * feePerKb / 1000 <= 100 * q < size * feePerKb / 1000 + 100;
  }

  /** An output is worth its fees from 546 on, at the rate. */
  lemma MinOutputIs(feePerKb: nat, a: nat)
    ensures a >= MinOutputAmount(feePerKb) <==> a >= 546 && 1000 * a >= 546 * feePerKb
  {
  }

  /** What rounding off the balance adds to the fee. */
  lemma FeeAmountIs(w: Purse, outs: seq<Pay>, k: nat)
    ensures var r := FeeAmount(w, outs, k) - TxFee(w.feePerKb, Size(k, outs) + TX_OUTPUT_SIZE);
      var left := w.balance - Total(outs) - TxFee(w.feePerKb, Size(k, outs) + TX_OUTPUT_SIZE);
      0 <= r < 100 && if k > 0 && left > 0 then (left - r) % 100 == 0 else r == 0
  {
    hide TxFee, Total;
  }

  /** A payment spends the first payable outputs and makes its outputs from them: the fee for its size with a change
      output, rounded so that the balance comes to a multiple of 100, is kept, and whatever is left goes to the
      change script, unless it is not worth an output. */
  lemma PaymentIs(w: Purse, outs: seq<Pay>, changeScript: seq<Byte>)
    requires Pays(w, outs, changeScript).Paid?
    ensures var p := Pays(w, outs, changeScript).payment;
      var k := |p.inputs|;
      k <= |Payable(w.all, w.utxos)| && p.inputs == Payable(w.all, w.utxos)[..k] &&
      (forall u :: u in p.inputs ==> Known(w.all, u)) &&
      var left := Sum(w.all, p.inputs) - Total(outs) - FeeAmount(w, outs, k);
      left >= 0 &&
      p.outputs == if left > MinOutputAmount(w.feePerKb) then outs + [Transactions.TxOut(left, changeScript)] else outs
  {
    hide TxFee, MinOutputAmount, Total, Payable, Sum, FeeAmount;
    var k := Select(w, outs, 0).count;
    PayableKnown(w);
  }

  /** So what is not paid out is bounded: the fee, less than 100 for rounding, and change too small for an output. */
  lemma NothingLost(w: Purse, outs: seq<Pay>, changeScript: seq<Byte>)
    requires Pays(w, outs, changeScript).Paid?
    ensures var p := Pays(w, outs, changeScript).payment;
      var fee := TxFee(w.feePerKb, Size(|p.inputs|, outs) + TX_OUTPUT_SIZE);
      (forall u :: u in p.inputs ==> Known(w.all, u)) &&
      Total(p.outputs) + fee <= Sum(w.all, p.inputs) <= Total(p.outputs) + fee + 99 + MinOutputAmount(w.feePerKb) &&
      (p.outputs != outs ==>
        Sum(w.all, p.inputs) <= Total(p.outputs) + fee + 99 &&
        exists change: Pay :: p.outputs == outs + [change] && change.script == changeScript &&
                              change.amount > MinOutputAmount(w.feePerKb))
  {
    hide TxFee, MinOutputAmount, Total, Payable, Sum, Pays, FeeAmount, Size;
    PaymentIs(w, outs, changeScript);
    var p := Pays(w, outs, changeScript).payment;
    var k := |p.inputs|;
    FeeAmountIs(w, outs, k);
    var left := Sum(w.all, p.inputs) - Total(outs) - FeeAmount(w, outs, k);
    if left > MinOutputAmount(w.feePerKb) {
      var change := Transactions.TxOut(left, changeScript);
      TotalSnoc(outs, change);
      assert p.outputs == outs + [change] && change.script == changeScript;
    }
  }

  /** The first k payable outputs, k at least 1, are enough: they pay exactly, or leave a change output. */
  lemma EnoughIs(w: Purse, outs: seq<Pay>, k: nat)
    requires k <= |Payable(w.all, w.utxos)|
    ensures forall u :: u in Payable(w.all, w.utxos)[..k] ==> Known(w.all, u)
    ensures var over := Sum(w.all, Payable(w.all, w.utxos)[..k]) - Total(outs) - FeeAmount(w, outs, k);
      Enough(w, outs, k) <==> over == 0 || over >= MinOutputAmount(w.feePerKb)
  {
    hide FeeAmount, MinOutputAmount, Total, Sum, Payable;
    PayableKnown(w);
  }

  /** It takes as few of them as are enough, without getting above 100,000 bytes, or all. */
  lemma {:induction false} SelectIs(w: Purse, outs: seq<Pay>, k: nat)
    requires k <= |Payable(w.all, w.utxos)|
    ensures var n, s := |Payable(w.all, w.utxos)|, Select(w, outs, k);
      match s
      case Selected(c) =>
        k <= c <= n && (forall j :: k < j <= c ==> Size(j, outs) + 34 <= 100_000) &&
        (forall j :: k < j < c ==> !Enough(w, outs, j)) && (c == n || (c > k && Enough(w, outs, c)))
      case Oversize =>
        exists c :: k < c <= n && Size(c, outs) + 34 > 100_000 &&
                    forall j :: k < j < c ==> Size(j, outs) + 34 <= 100_000 && !Enough(w, outs, j)
    decreases |Payable(w.all, w.utxos)| - k
  {
    hide Enough, Size, Payable, Select, TooLarge;
    SelectStep(w, outs, k);
    if k < |Payable(w.all, w.utxos)| {
      TooLargeIs(outs, k + 1);
      if !TooLarge(outs, k + 1) && !Enough(w, outs, k + 1) {
        SelectIs(w, outs, k + 1);
      }
    }
  }

  lemma TooLargeIs(outs: seq<Pay>, k: nat)
    ensures TooLarge(outs, k) <==> Size(k, outs) + 34 > 100_000
  {
  }

  /** A payment fails for want of funds exactly when there is nothing to pay, or all payable outputs are taken and
      fall short. */
  lemma InsufficientIff(w: Purse, outs: seq<Pay>, changeScript: seq<Byte>)
    ensures var n := |Payable(w.all, w.utxos)|;
      (forall u :: u in Payable(w.all, w.utxos) ==> Known(w.all, u)) &&
      (Pays(w, outs, changeScript) == Insufficient <==>
        Select(w, outs, 0).Selected? &&
        (outs == [] || (Select(w, outs, 0).count == n &&
                        Sum(w.all, Payable(w.all, w.utxos)) < Total(outs) + FeeAmount(w, outs, n))))
    ensures Pays(w, outs, changeScript) == TooMany <==> Select(w, outs, 0) == Oversize
  {
    hide FeeAmount, MinOutputAmount, Total, Sum, Payable, Select;
    var ps := Payable(w.all, w.utxos);
    assert ps[..|ps|] == ps;
    SelectStops(w, outs, 0);
    PayableKnown(w);
    if Select(w, outs, 0).Selected? {
      EnoughIs(w, outs, Select(w, outs, 0).count);
    }
  }

  /** The most that can be paid: an output of 25 script bytes can be paid from all payable outputs exactly up to it. */
  lemma MaxOutputIs(w: Purse, o: Pay)
    requires o.amount > 0 && |o.script| == 25
    ensures var ps := Payable(w.all, w.utxos);
      o.amount <= MaxOutputAmount(w) <==>
        Sum(w.all, ps) >= o.amount + TxFee(w.feePerKb, Size(|ps|, [o]) + TX_OUTPUT_SIZE)
  {
    hide TxFee, Payable, Sum;
    assert [] + [o] == [o];
    TotalSnoc([], o);
  }

  /** What the inputs of a payment exceed its outputs by is at least the fee for its own size. */
  ghost predicate Covered(w: Purse, outs: seq<Pay>, changeScript: seq<Byte>) {
    Distinct(w.utxos) && Pays(w, outs, changeScript).Paid? ==>
      var p := Pays(w, outs, changeScript).payment;
      (forall u :: u in p.inputs ==> Known(w.all, u)) &&
      Sum(w.all, p.inputs) >= Total(p.outputs) + TxFee(w.feePerKb, Size(|p.inputs|, p.outputs))
  }

  lemma PaymentCovers(w: Purse, outs: seq<Pay>, changeScript: seq<Byte>)
    requires ChangeFits(outs, changeScript)
    ensures Covered(w, outs, changeScript)
  {
    hide TxFee, MinOutputAmount, Select, Transactions.OutputsSize, Sum;
    if Distinct(w.utxos) && Pays(w, outs, changeScript).Paid? {
      PaymentKeeps(w, outs, changeScript);
      var k := Select(w, outs, 0).count;
      var left := Purchasing(w, k) - (Total(outs) + FeeAmount(w, outs, k));
      TotalSnoc(outs, Transactions.TxOut(left, changeScript));
      TxFeeMonotone(w.feePerKb, Size(k, outs), Size(k, outs) + TX_OUTPUT_SIZE);
      if left > MinOutputAmount(w.feePerKb) {
        var more := outs + [Transactions.TxOut(left, changeScript)];
        TxFeeMonotone(w.feePerKb, Size(k, more), Size(k, outs) + TX_OUTPUT_SIZE);
      }
    }
  }

  /** Payments of these outputs with this change script are covered from every purse exactly when the change fits.
      It does for scripts of up to 25 bytes, unless the change is the 253rd output (or starts a longer count). */
  lemma CoveredIff(outs: seq<Pay>, changeScript: seq<Byte>)
    requires |outs| >= 1 && !TooLarge(outs, 1)
    ensures (forall w :: Covered(w, outs, changeScript)) <==> ChangeFits(outs, changeScript)
  {
    hide Covered;
    if ChangeFits(outs, changeScript) {
      forall w: Purse
        ensures Covered(w, outs, changeScript)
      {
        PaymentCovers(w, outs, changeScript);
      }
    } else {
      FeeTooSmall(outs, changeScript);
    }
  }

  /** 100 for each byte. */
  lemma FeeByByte(size: nat)
    ensures TxFee(100_000, size) == 100 * size
  {
  }

  /** One unspent output of some amount, at 100 for each byte. */
  function OneCoin(amount: nat): Purse {
    Purse(map[1 := Tx([], [Output(amount, "")], 0, 0, 0, 0)], [Outpoint(1, 0)], amount, 100_000)
  }

  lemma OneCoinIs(amount: nat)
    ensures var w := OneCoin(amount);
      Payable(w.all, w.utxos) == w.utxos && Purchasing(w, 0) == 0 && Purchasing(w, 1) == amount && Distinct(w.utxos) &&
      MinOutputAmount(w.feePerKb) == 54600 && forall u :: u in w.utxos ==> Known(w.all, u)
    ensures Sum(OneCoin(amount).all, OneCoin(amount).utxos) == amount
  {
    var w := OneCoin(amount);
    assert w.utxos[..0] == [] && w.utxos[..1] == w.utxos && w.utxos == [] + [Outpoint(1, 0)];
    assert Known(w.all, Outpoint(1, 0)) && Amount(w.all, Outpoint(1, 0)) == amount;
    assert Sum(w.all, []) == 0;
  }

  lemma FeeTooSmall(outs: seq<Pay>, changeScript: seq<Byte>)
    requires |outs| >= 1 && !TooLarge(outs, 1) && !ChangeFits(outs, changeScript)
    ensures !Covered(OneCoin(Total(outs) + 100 * (Size(1, outs) + TX_OUTPUT_SIZE) + 60_000), outs, changeScript)
  {
    hide TxFee, MinOutputAmount, Payable, Purchasing, OneCoin, Total, Transactions.OutputsSize;
    var fee := 100 * (Size(1, outs) + TX_OUTPUT_SIZE);
    var amount := Total(outs) + fee + 60_000;
    var w := OneCoin(amount);
    OneCoinIs(amount);
    assert w.feePerKb == 100_000 && w.balance == amount && |w.utxos| == 1 by { CoinFields(amount); }
    FeeByByte(Size(1, outs) + TX_OUTPUT_SIZE);
    assert FeeAmount(w, outs, 1) == fee;
    assert Enough(w, outs, 1);
    assert Select(w, outs, 0) == Selected(1);
    var change := Transactions.TxOut(60_000, changeScript);
    TotalSnoc(outs, change);
    assert w.utxos[..1] == w.utxos;
    assert Pays(w, outs, changeScript) == Paid(Payment(w.utxos, outs + [change]));
    FeeByByte(Size(1, outs + [change]));
  }

  lemma CoinFields(amount: nat)
    ensures var w := OneCoin(amount); w.feePerKb == 100_000 && w.balance == amount && |w.utxos| == 1
  {
  }

  /** Shuffling the outputs changes neither their total nor their size. */
  lemma {:induction false} ShuffledSame(outs: seq<Pay>, outs': seq<Pay>)
    requires multiset(outs) == multiset(outs')
    ensures |outs| == |outs'| && Total(outs) == Total(outs')
    ensures Transactions.OutputsSize(outs) == Transactions.OutputsSize(outs')
  {
    hide Total, Transactions.OutputsSize;
    SameLength(outs, outs');
    if outs != [] {
      var front, o := outs[..|outs| - 1], outs[|outs| - 1];
      assert outs == front + [o];
      assert o in multiset(outs');
      var k :| 0 <= k < |outs'| && outs'[k] == o;
      var head, tail := outs'[..k], outs'[k + 1..];
      assert outs' == head + [o] + tail;
      WithoutOne(front, o, head, tail);
      ShuffledSame(front, head + tail);
      TotalSnoc(front, o);
      TotalInsert(head, o, tail);
    }
  }

  lemma SameLength(outs: seq<Pay>, outs': seq<Pay>)
    requires multiset(outs) == multiset(outs')
    ensures |outs| == |outs'|
  {
    assert |multiset(outs)| == |outs| && |multiset(outs')| == |outs'|;
  }

  lemma WithoutOne(front: seq<Pay>, o: Pay, head: seq<Pay>, tail: seq<Pay>)
    requires multiset(front + [o]) == multiset(head + [o] + tail)
    ensures multiset(front) == multiset(head + tail)
  {
    assert multiset(front + [o]) == multiset(front) + multiset{o};
    assert multiset(head + [o] + tail) == multiset(head + tail) + multiset{o};
    assert multiset(front) + multiset{o} - multiset{o} == multiset(front);
    assert multiset(head + tail) + multiset{o} - multiset{o} == multiset(head + tail);
  }

  lemma {:induction false} TotalInsert(a: seq<Pay>, o: Pay, b: seq<Pay>)
    ensures Total(a + [o] + b) == Total(a + b) + o.amount
    ensures Transactions.OutputsSize(a + [o] + b)
         == Transactions.OutputsSize(a + b) + 8 + VarIntSize(|o.script|) + |o.script|
    decreases |b|
  {
    hide Total, Transactions.OutputsSize;
    if b == [] {
      assert a + [o] + b == a + [o] && a + b == a;
      TotalSnoc(a, o);
    } else {
      var front, l := b[..|b| - 1], b[|b| - 1];
      assert b == front + [l];
      assert a + [o] + b == (a + [o] + front) + [l] && a + b == (a + front) + [l];
      TotalInsert(a, o, front);
      TotalSnoc(a + [o] + front, l);
      TotalSnoc(a + front, l);
    }
  }

  lemma {:induction false} PayableDistinct(all: map<Hash, Tx>, us: seq<Outpoint>)
    requires Distinct(us)
    ensures Distinct(Payable(all, us))
  {
    if us != [] {
      var front, u := us[..|us| - 1], us[|us| - 1];
      PayableDistinct(all, front);
      var r := Payable(all, front);
      assert forall i :: 0 <= i < |r| ==> r[i] in r;
      assert u !in front;
    }
  }

  /** Asking for the most that can be paid never fails for want of funds, when the balance is the sum of the
      unspent outputs. */
  lemma MaxOutputIsPaid(w: Purse, o: Pay, changeScript: seq<Byte>)
    requires w.balance == Sum(w.all, Payable(w.all, w.utxos))
    requires o.amount == MaxOutputAmount(w) > 0 && |o.script| <= 25
    ensures Pays(w, [o], changeScript) != Insufficient
  {
    hide TxFee, MinOutputAmount, Payable, Sum, Select;
    var ps := Payable(w.all, w.utxos);
    var n := |ps|;
    var size := 8 + VarIntSize(n) + Transactions.TX_INPUT_SIZE * n + VarIntSize(2) + TX_OUTPUT_SIZE * 2;
    assert [] + [o] == [o];
    TotalSnoc([], o);
    TxFeeMonotone(w.feePerKb, Size(n, [o]) + TX_OUTPUT_SIZE, size);
    assert ps[..n] == ps;
    assert Purchasing(w, n) == w.balance;
    RoundingFits(w.balance, Total([o]), TxFee(w.feePerKb, Size(n, [o]) + TX_OUTPUT_SIZE));
    SelectStops(w, [o], 0);
  }

  /** From every purse it succeeds or gets too large, exactly when the script is of a usual size. */
  lemma MaxOutputIff(o: Pay, changeScript: seq<Byte>)
    requires o.amount > 0 && !TooLarge([o], 1)
    ensures (forall w :: PaidInFull(w, o, changeScript)) <==> |o.script| <= 25
  {
    hide PaidInFull;
    if |o.script| <= 25 {
      forall w: Purse
        ensures PaidInFull(w, o, changeScript)
      {
        FullyPaid(w, o, changeScript);
      }
    } else {
      NotPaidInFull(o, changeScript);
    }
  }

  ghost predicate PaidInFull(w: Purse, o: Pay, changeScript: seq<Byte>) {
    w.balance == Sum(w.all, Payable(w.all, w.utxos)) && o.amount == MaxOutputAmount(w) ==>
      Pays(w, [o], changeScript) != Insufficient
  }

  lemma FullyPaid(w: Purse, o: Pay, changeScript: seq<Byte>)
    requires o.amount > 0 && |o.script| <= 25
    ensures PaidInFull(w, o, changeScript)
  {
    hide Pays, MaxOutputAmount, Sum, Payable;
    if w.balance == Sum(w.all, Payable(w.all, w.utxos)) && o.amount == MaxOutputAmount(w) {
      MaxOutputIsPaid(w, o, changeScript);
    }
  }

  lemma NotPaidInFull(o: Pay, changeScript: seq<Byte>)
    requires o.amount > 0 && !TooLarge([o], 1) && |o.script| > 25
    ensures !PaidInFull(OneCoin(o.amount + 22_600), o, changeScript)
  {
    hide TxFee, MinOutputAmount, Payable, Purchasing, OneCoin, Total, Transactions.OutputsSize, Sum;
    var amount := o.amount + 22_600;
    var w := OneCoin(amount);
    OneCoinIs(amount);
    CoinFields(amount);
    FeeByByte(226);
    assert MaxOutputAmount(w) == o.amount;
    assert [] + [o] == [o];
    TotalSnoc([], o);
    assert Total([]) == 0 && Transactions.OutputsSize([]) == 0 by { NoOutputs(); }
    FeeByByte(Size(1, [o]) + TX_OUTPUT_SIZE);
    assert FeeAmount(w, [o], 1) == 100 * (Size(1, [o]) + TX_OUTPUT_SIZE);
    assert !Enough(w, [o], 1);
    assert Select(w, [o], 1) == Selected(1);
    assert Select(w, [o], 0) == Selected(1);
  }

  lemma NoOutputs()
    ensures Total([]) == 0 && Transactions.OutputsSize([]) == 0
  {
  }

  lemma RoundingFits(balance: nat, total: nat, fee: nat)
    requires balance >= total + fee
    ensures total + fee + (balance - (total + fee)) % 100 <= balance
  {
  }

  /** Taking inputs ends with enough of them or with all. */
  lemma {:induction false} SelectStops(w: Purse, outs: seq<Pay>, k: nat)
    requires k <= |Payable(w.all, w.utxos)|
    ensures var s := Select(w, outs, k);
      s.Oversize? || s.count == |Payable(w.all, w.utxos)| || Enough(w, outs, s.count)
    decreases |Payable(w.all, w.utxos)| - k
  {
    if k < |Payable(w.all, w.utxos)| && !TooLarge(outs, k + 1) && !Enough(w, outs, k + 1) {
      SelectStops(w, outs, k + 1);
    }
  }

  /** The payable ones among the first i unspent outputs come first among all payable ones. */
  lemma PayableFirst(w: Purse, i: nat)
    requires i <= |w.utxos|
    ensures var first, all := Payable(w.all, w.utxos[..i]), Payable(w.all, w.utxos);
      |first| <= |all| && first == all[..|first|]
    ensures Payable(w.all, w.utxos[..0]) == [] && Purchasing(w, 0) == 0
    ensures i > 0 ==>
      Payable(w.all, w.utxos[..i]) ==
        Payable(w.all, w.utxos[..i - 1]) + if Known(w.all, w.utxos[i - 1]) then [w.utxos[i - 1]] else []
  {
    PayablePrefix(w.all, w.utxos, i);
    assert i > 0 ==> w.utxos[..i][..i - 1] == w.utxos[..i - 1];
  }

  lemma {:induction false} PayablePrefix(all: map<Hash, Tx>, us: seq<Outpoint>, i: nat)
    requires i <= |us|
    ensures |Payable(all, us[..i])| <= |Payable(all, us)|
    ensures Payable(all, us[..i]) == Payable(all, us)[..|Payable(all, us[..i])|]
    decreases |us|
  {
    if i == |us| {
      assert us[..i] == us;
    } else {
      PayablePrefix(all, us[..|us| - 1], i);
      assert us[..|us| - 1][..i] == us[..i];
    }
  }

  /** What the selection does with k inputs taken. */
  lemma SelectStep(w: Purse, outs: seq<Pay>, k: nat)
    requires k <= |Payable(w.all, w.utxos)|
    ensures k == |Payable(w.all, w.utxos)| ==> Select(w, outs, k) == Selected(k)
    ensures k < |Payable(w.all, w.utxos)| ==>
      Select(w, outs, k) ==
        if TooLarge(outs, k + 1) then Oversize
        else if Enough(w, outs, k + 1) then Selected(k + 1) else Select(w, outs, k + 1)
  {
    hide TooLarge, Enough;
  }

  lemma PayableKnown(w: Purse)
    ensures forall k: nat, p | k <= |Payable(w.all, w.utxos)| && p in Payable(w.all, w.utxos)[..k] :: Known(w.all, p)
  {
  }

  lemma SumNext(all: map<Hash, Tx>, us: seq<Outpoint>, u: Outpoint)
    requires (forall p :: p in us ==> Known(all, p)) && Known(all, u)
    ensures (forall p :: p in us + [u] ==> Known(all, p)) && Sum(all, us + [u]) == Sum(all, us) + Amount(all, u)
  {
    assert (us + [u])[..|us|] == us;
  }

  /** One more payable output adds its amount. */
  lemma PayableNext(w: Purse, i: nat)
    requires i < |w.utxos| && Known(w.all, w.utxos[i])
    ensures var k := |Payable(w.all, w.utxos[..i])|;
      k < |Payable(w.all, w.utxos)| && Purchasing(w, k + 1) == Purchasing(w, k) + Amount(w.all, w.utxos[i])
  {
    hide Payable, Sum;
    PayableFirst(w, i);
    PayableFirst(w, i + 1);
    var k, ps := |Payable(w.all, w.utxos[..i])|, Payable(w.all, w.utxos);
    assert ps[..k + 1] == ps[..k] + [w.utxos[i]];
    PayableKnown(w);
    SumNext(w.all, ps[..k], w.utxos[i]);
  }

  function SumPayable(all: map<Hash, Tx>, us: seq<Outpoint>): nat {
    Sum(all, Payable(all, us))
  }

  lemma PurchaseBack(all: map<Hash, Tx>, us: seq<Outpoint>, i: nat)
    requires 0 < i <= |us|
    ensures |Payable(all, us[..i])| == |Payable(all, us[..i - 1])| + if Known(all, us[i - 1]) then 1 else 0
    ensures SumPayable(all, us[..i])
         == SumPayable(all, us[..i - 1]) + if Known(all, us[i - 1]) then Amount(all, us[i - 1]) else 0
  {
    assert us[..i][..i - 1] == us[..i - 1];
    var ps := Payable(all, us[..i]);
    if Known(all, us[i - 1]) {
      assert ps == Payable(all, us[..i - 1]) + [us[i - 1]];
      assert ps[..|ps| - 1] == Payable(all, us[..i - 1]);
    } else {
      assert ps == Payable(all, us[..i - 1]);
    }
  }

  lemma PurchaseEnds(all: map<Hash, Tx>, us: seq<Outpoint>)
    ensures us[..|us|] == us && Payable(all, us[..0]) == [] && SumPayable(all, us[..0]) == 0
  {
  }

  lemma {:induction false} AllPayable(all: map<Hash, Tx>, us: seq<Outpoint>)
    requires forall u :: u in us ==> Known(all, u)
    ensures Payable(all, us) == us
  {
    if us != [] {
      var front, u := us[..|us| - 1], us[|us| - 1];
      assert us == front + [u] && u in us;
      assert forall v :: v in front ==> v in us;
      AllPayable(all, front);
    }
  }

  /** Nothing is too large when a transaction spending everything is not. */
  lemma {:induction false} SelectFits(w: Purse, outs: seq<Pay>, k: nat)
    requires k <= |Payable(w.all, w.utxos)| && !TooLarge(outs, |Payable(w.all, w.utxos)|)
    ensures Select(w, outs, k).Selected?
    decreases |Payable(w.all, w.utxos)| - k
  {
    if k < |Payable(w.all, w.utxos)| {
      SelectFits(w, outs, k + 1);
    }
  }

  /** Fisher-Yates, in place; draw(i, n) is a number below n. */
  method ShuffleOutputs(outputs: array<Pay>, draw: (nat, nat) -> nat)
    requires forall i, n :: n > 0 ==> draw(i, n) < n
    modifies outputs
    ensures multiset(outputs[..]) == multiset(old(outputs[..]))
  {
    var i: nat := 0;
    while i + 1 < outputs.Length
      invariant multiset(outputs[..]) == multiset(old(outputs[..]))
    {
      var j := i + draw(i, outputs.Length - i);
      if j != i {
        outputs[i], outputs[j] := outputs[j], outputs[i];
      }
      i := i + 1;
    }
  }
}
