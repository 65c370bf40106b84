/** The wallet: its sorted list of transactions, the books kept about them, and new transactions paid from them. */
module Wallets {
  import opened Ledger
  import opened VarInts
  import opened Payments
  import opened Words
  import Transactions

  // ----- The order of the list -----

  /** Spending only goes back to transactions of a lower rank. */
  ghost predicate Acyclic(all: map<Hash, Tx>, rank: Hash -> nat) {
    forall h, i :: h in all && 0 <= i < |all[h].inputs| ==> rank(all[h].inputs[i].point.hash) < rank(h)
  }

  /** Whether h1 is later than h2: by height, else when it spends h2, directly or through transactions it spends. */
  ghost predicate IsAscending(all: map<Hash, Tx>, rank: Hash -> nat, h1: Hash, h2: Hash)
    requires Acyclic(all, rank) && h2 in all
    decreases rank(h1)
  {
    h1 in all &&
    var t1, t2 := all[h1], all[h2];
    if t1.height != t2.height then t1.height > t2.height
    else if h2 in Parents(t1) then true
    else if h1 in Parents(t2) then false
    else exists i :: 0 <= i < |t1.inputs| && IsAscending(all, rank, t1.inputs[i].point.hash, h2)
  }

  predicate PaysTo(tx: Tx, addr: Address) {
    exists j :: 0 <= j < |tx.outputs| && tx.outputs[j].address == addr
  }

  /** One more than the last position of the chain, below n, that an output pays to; 0 when there is none. */
  function ChainIndex(tx: Tx, chain: seq<Address>, n: nat): (r: nat)
    requires n <= |chain|
    ensures r <= n && (r > 0 ==> PaysTo(tx, chain[r - 1])) && forall k :: r <= k < n ==> !PaysTo(tx, chain[k])
  {
    if n == 0 || PaysTo(tx, chain[n - 1]) then n else ChainIndex(tx, chain, n - 1)
  }

  predicate Sorted(all: map<Hash, Tx>, hs: seq<Hash>)
    requires forall h :: h in hs ==> h in all
  {
    forall i, j :: 0 <= i < j < |hs| ==> hs[i] in hs && hs[j] in hs && all[hs[i]].height <= all[hs[j]].height
  }

  /** A wallet address is paid by tx, or by an output it spends. */
  predicate Related(all: map<Hash, Tx>, addrs: set<Address>, tx: Tx) {
    (exists j :: 0 <= j < |tx.outputs| && tx.outputs[j].address in addrs) ||
    (exists i :: 0 <= i < |tx.inputs| &&
                 Known(all, tx.inputs[i].point) &&
                 all[tx.inputs[i].point.hash].outputs[tx.inputs[i].point.n].address in addrs)
  }

  class Wallet {
    var allTx: map<Hash, Tx>
    var transactions: seq<Hash>
    var internalChain: seq<Address>
    var externalChain: seq<Address>
    var allAddrs: set<Address>
    var blockHeight: nat
    var feePerKb: nat
    var utxos: seq<Outpoint>
    var balance: nat
    var totalReceived: nat
    var totalSent: nat
    var balanceHist: seq<nat>
    var spentOutputs: set<Outpoint>
    var invalidTx: set<Hash>
    var pendingTx: set<Hash>
    var usedAddrs: set<Address>
    ghost const rank: Hash -> nat

    /** The list: known, distinct, related to the wallet. */
    ghost predicate ListKnown()
      reads this
    {
      Acyclic(allTx, rank) && Distinct(transactions) &&
      forall h :: h in transactions ==> h in allTx && Related(allTx, allAddrs, allTx[h])
    }

    /** And sorted by height. */
    ghost predicate ListValid()
      reads this
    {
      ListKnown() && Sorted(allTx, transactions)
    }

    /** The books: every unspent output is the wallet's own and listed once, and the balance is their sum. */
    ghost predicate BooksValid()
      reads this
    {
      Distinct(utxos) &&
      (forall u :: u in utxos ==> Known(allTx, u) && allTx[u.hash].outputs[u.n].address in allAddrs) &&
      balance == Sum(allTx, utxos) && balance + totalSent == totalReceived
    }

    ghost predicate Valid()
      reads this
    {
      ListValid() && BooksValid()
    }

    function Env(now: nat): Env
      reads this
    {
      Ledger.Env(allTx, allAddrs, blockHeight, now)
    }

    function Books(): State
      reads this
    {
      State(utxos, balance, totalReceived, totalSent, balanceHist, spentOutputs, invalidTx, pendingTx, usedAddrs)
    }

    constructor (feePerKb: nat, internalChain: seq<Address>, externalChain: seq<Address>, ghost rank: Hash -> nat)
      ensures Valid() && allTx == map[] && transactions == [] && Books() == START && blockHeight == 0
      ensures this.feePerKb == feePerKb && this.internalChain == internalChain && this.externalChain == externalChain
      ensures allAddrs == (set a | a in internalChain + externalChain)
    {
      this.feePerKb, this.internalChain, this.externalChain := feePerKb, internalChain, externalChain;
      this.rank := rank;
      allTx, transactions, blockHeight := map[], [], 0;
      allAddrs := set a | a in internalChain + externalChain;
      utxos, balance, totalReceived, totalSent, balanceHist := [], 0, 0, 0, [];
      spentOutputs, invalidTx, pendingTx, usedAddrs := {}, {}, {}, {};
    }

    // ----- Comparing transactions -----

    method TxIsAscending(h1: Hash, h2: Hash) returns (r: bool)
      requires Acyclic(allTx, rank) && h2 in allTx
      ensures r == IsAscending(allTx, rank, h1, h2)
      decreases rank(h1)
    {
      if h1 !in allTx {
        return false;
      }
      var t1, t2 := allTx[h1], allTx[h2];
      if t1.height > t2.height {
        return true;
      }
      if t1.height < t2.height {
        return false;
      }
      var i := 0;
      while i < |t1.inputs|
        invariant 0 <= i <= |t1.inputs| && forall k :: 0 <= k < i ==> t1.inputs[k].point.hash != h2
      {
        if t1.inputs[i].point.hash == h2 {
          return true;
        }
        i := i + 1;
      }
      i := 0;
      while i < |t2.inputs|
        invariant 0 <= i <= |t2.inputs| && forall k :: 0 <= k < i ==> t2.inputs[k].point.hash != h1
      {
        if t2.inputs[i].point.hash == h1 {
          return false;
        }
        i := i + 1;
      }
      i := 0;
      while i < |t1.inputs|
        invariant 0 <= i <= |t1.inputs|
        invariant forall k :: 0 <= k < i ==> !IsAscending(allTx, rank, t1.inputs[k].point.hash, h2)
      {
        r := TxIsAscending(t1.inputs[i].point.hash, h2);
        if r {
          return true;
        }
        i := i + 1;
      }
      return false;
    }

    /** The position plus one, 0 standing for none. */
    method TxChainIndex(tx: Tx, chain: seq<Address>) returns (r: nat)
      ensures r == ChainIndex(tx, chain, |chain|)
    {
      r := |chain|;
      while r > 0
        invariant r <= |chain| && ChainIndex(tx, chain, r) == ChainIndex(tx, chain, |chain|)
      {
        var j := 0;
        while j < |tx.outputs|
          invariant 0 <= j <= |tx.outputs| && forall k :: 0 <= k < j ==> tx.outputs[k].address != chain[r - 1]
        {
          if tx.outputs[j].address == chain[r - 1] {
            return;
          }
          j := j + 1;
        }
        r := r - 1;
      }
    }

    /** Later by height or by spending decides; between unrelated ones, the later address of a common chain. */
    ghost function Order(h1: Hash, h2: Hash): int
      requires Acyclic(allTx, rank) && h1 in allTx && h2 in allTx
      reads this`allTx, this`internalChain, this`externalChain
    {
      if IsAscending(allTx, rank, h1, h2) then 1
      else if IsAscending(allTx, rank, h2, h1) then -1
      else
        var t1, t2 := allTx[h1], allTx[h2];
        var internal := ChainIndex(t1, internalChain, |internalChain|);
        var chain := if internal == 0 then externalChain else internalChain;
        var i, j := ChainIndex(t1, chain, |chain|), ChainIndex(t2, chain, |chain|);
        if i != 0 && j != 0 && i != j then (if i > j then 1 else -1) else 0
    }

    /** Everything from place i on is later than h. */
    ghost predicate LaterFrom(hs: seq<Hash>, h: Hash, i: nat)
      requires Acyclic(allTx, rank) && h in allTx && i <= |hs|
      reads this`allTx, this`internalChain, this`externalChain
    {
      forall k | i <= k < |hs| :: hs[k] in allTx && Order(hs[k], h) > 0
    }

    /** And the one before place i is not. */
    ghost predicate StandsAt(hs: seq<Hash>, h: Hash, i: nat)
      requires Acyclic(allTx, rank) && h in allTx && i <= |hs|
      reads this`allTx, this`internalChain, this`externalChain
    {
      LaterFrom(hs, h, i) && (i > 0 ==> hs[i - 1] in allTx && Order(hs[i - 1], h) <= 0)
    }

    lemma NoneLater(hs: seq<Hash>, h: Hash)
      requires Acyclic(allTx, rank) && h in allTx
      ensures LaterFrom(hs, h, |hs|)
    {
    }

    lemma LaterMore(hs: seq<Hash>, h: Hash, i: nat)
      requires Acyclic(allTx, rank) && h in allTx && 0 < i <= |hs| && LaterFrom(hs, h, i)
      requires hs[i - 1] in allTx && Order(hs[i - 1], h) > 0
      ensures LaterFrom(hs, h, i - 1)
    {
      hide Order;
    }

    /** A higher transaction is the later one, and at the same height one that spends the other. */
    lemma SpenderIsLater(h1: Hash, h2: Hash, i: nat)
      requires Acyclic(allTx, rank) && h1 in allTx && h2 in allTx
      requires allTx[h1].height > allTx[h2].height ||
               (allTx[h1].height == allTx[h2].height && i < |allTx[h1].inputs| && allTx[h1].inputs[i].point.hash == h2)
      ensures Order(h1, h2) == 1 && Order(h2, h1) == -1
    {
      if allTx[h1].height == allTx[h2].height {
        assert h2 in Parents(allTx[h1]) && rank(h2) < rank(h1);
        assert h1 !in Parents(allTx[h2]);
      }
    }

    /** Between others, the one that pays the later address of a chain that both pay to: the internal chain if the first
        pays to it at all, else the external one. */
    lemma LaterAddress(h1: Hash, h2: Hash, i: nat, j: nat)
      requires Acyclic(allTx, rank) && h1 in allTx && h2 in allTx
      requires !IsAscending(allTx, rank, h1, h2) && !IsAscending(allTx, rank, h2, h1)
      requires var t1, t2 := allTx[h1], allTx[h2];
        var chain :=
          if exists k :: 0 <= k < |internalChain| && PaysTo(t1, internalChain[k]) then internalChain else externalChain;
        i < |chain| && PaysTo(t1, chain[i]) && (forall k :: i < k < |chain| ==> !PaysTo(t1, chain[k])) &&
        j < |chain| && PaysTo(t2, chain[j]) && (forall k :: j < k < |chain| ==> !PaysTo(t2, chain[k]))
      ensures Order(h1, h2) == if i > j then 1 else if i < j then -1 else 0
    {
      hide IsAscending, PaysTo;
      var t1, t2 := allTx[h1], allTx[h2];
      var internal := ChainIndex(t1, internalChain, |internalChain|);
      assert internal == 0 <==> !exists k :: 0 <= k < |internalChain| && PaysTo(t1, internalChain[k]);
    }

    method TxCompare(h1: Hash, h2: Hash) returns (c: int)
      requires Acyclic(allTx, rank) && h1 in allTx && h2 in allTx
      ensures c == Order(h1, h2)
      ensures allTx[h1].height > allTx[h2].height ==> c > 0
      ensures allTx[h1].height < allTx[h2].height ==> c < 0
    {
      var later := TxIsAscending(h1, h2);
      if later {
        return 1;
      }
      later := TxIsAscending(h2, h1);
      if later {
        return -1;
      }
      var i := TxChainIndex(allTx[h1], internalChain);
      var j := TxChainIndex(allTx[h2], if i == 0 then externalChain else internalChain);
      if i == 0 && j != 0 {
        i := TxChainIndex(allTx[h1], externalChain);
      }
      if i != 0 && j != 0 && i != j {
        return if i > j then 1 else -1;
      }
      return 0;
    }

    /** Insertion into the sorted list, behind the last entry that does not come later. */
    method InsertTx(h: Hash)
      requires Acyclic(allTx, rank) && h in allTx && h !in transactions
      requires Distinct(transactions) && (forall g :: g in transactions ==> g in allTx) && Sorted(allTx, transactions)
      modifies this`transactions
      ensures exists i | 0 <= i <= |old(transactions)| ::
        transactions == old(transactions[..i]) + [h] + old(transactions[i..]) && StandsAt(old(transactions), h, i)
      ensures forall g :: g in transactions <==> g == h || g in old(transactions)
      ensures Distinct(transactions) && Sorted(allTx, transactions)
    {
      hide Acyclic, Sorted, Distinct, Shifted, Order, LaterFrom;
      ghost var was := transactions;
      var i: nat := |transactions|;
      transactions := transactions + [h];
      ShiftStarts(allTx, was, h);
      NoneLater(was, h);
      while i > 0
        invariant i <= |was| && |transactions| == |was| + 1 && Shifted(allTx, was, transactions, i, h)
        invariant LaterFrom(was, h, i)
      {
        ShiftedPrefix(allTx, was, transactions, i, h);
        var c := TxCompare(transactions[i - 1], h);
        if c <= 0 {
          break;
        }
        ShiftMore(allTx, was, transactions, i, h);
        LaterMore(was, h, i);
        transactions := transactions[i := transactions[i - 1]];
        i := i - 1;
      }
      if i > 0 {
        ShiftedPrefix(allTx, was, transactions, i, h);
      }
      FinishInsert(allTx, was, transactions, i, h);
      assert StandsAt(was, h, i);
      transactions := transactions[i := h];
    }

    // ----- The books -----

    method FindConflict(tx: Tx) returns (found: bool)
      ensures found <==> Conflicts(Books(), tx)
    {
      found := false;
      var j := 0;
      while !found && j < |tx.inputs|
        invariant 0 <= j <= |tx.inputs|
        invariant found <==> exists i | 0 <= i < j ::
          tx.inputs[i].point in spentOutputs || tx.inputs[i].point.hash in invalidTx
      {
        if tx.inputs[j].point in spentOutputs || tx.inputs[j].point.hash in invalidTx {
          found := true;
        }
        j := j + 1;
      }
    }

    method FindReasonToWait(tx: Tx, now: nat) returns (pending: bool)
      ensures pending <==> Waits(Env(now), Books(), tx)
    {
      pending := tx.size > TX_MAX_SIZE;
      var j := 0;
      while !pending && j < |tx.outputs|
        invariant 0 <= j <= |tx.outputs|
        invariant pending <==>
          tx.size > TX_MAX_SIZE || exists i :: 0 <= i < j && tx.outputs[i].amount < TX_MIN_OUTPUT_AMOUNT
      {
        if tx.outputs[j].amount < TX_MIN_OUTPUT_AMOUNT {
          pending := true;
        }
        j := j + 1;
      }
      ghost var early := pending;
      j := 0;
      while !pending && j < |tx.inputs|
        invariant 0 <= j <= |tx.inputs|
        invariant pending <==> early || exists i :: 0 <= i < j && InputWaits(Env(now), Books(), tx, tx.inputs[i])
      {
        var i := tx.inputs[j];
        if i.sequence < SEQUENCE_FINAL - 1 {
          pending := true;
        }
        if i.sequence < SEQUENCE_FINAL && tx.lockTime < TX_MAX_LOCK_HEIGHT && tx.lockTime > blockHeight + 1 {
          pending := true;
        }
        if i.sequence < SEQUENCE_FINAL && tx.lockTime > now {
          pending := true;
        }
        if i.point.hash in pendingTx {
          pending := true;
        }
        j := j + 1;
      }
    }

    method AddInputs(tx: Tx)
      modifies this`spentOutputs
      ensures spentOutputs == old(spentOutputs) + Points(tx)
    {
      var j := 0;
      while j < |tx.inputs|
        invariant 0 <= j <= |tx.inputs|
        invariant spentOutputs == old(spentOutputs) + set i | 0 <= i < j :: tx.inputs[i].point
      {
        spentOutputs := spentOutputs + {tx.inputs[j].point};
        j := j + 1;
      }
    }

    /** Own outputs become unspent ones, and their amounts are added. */
    method AddOutputs(h: Hash, balance0: nat) returns (b: nat)
      requires h in allTx && forall u :: u in utxos ==> Known(allTx, u)
      modifies this`utxos, this`usedAddrs
      ensures utxos == old(utxos) + OwnOutputs(Env(0), h, allTx[h], |allTx[h].outputs|)
      ensures usedAddrs == old(usedAddrs) + UsedAddresses(allTx[h])
      ensures forall u :: u in utxos ==> Known(allTx, u)
      ensures b == balance0 + Sum(allTx, utxos) - Sum(allTx, old(utxos))
    {
      var tx := allTx[h];
      b := balance0;
      var j := 0;
      while j < |tx.outputs|
        invariant 0 <= j <= |tx.outputs|
        invariant utxos == old(utxos) + OwnOutputs(Env(0), h, tx, j)
        invariant usedAddrs ==
          old(usedAddrs) + set k | 0 <= k < j && tx.outputs[k].address != "" :: tx.outputs[k].address
        invariant forall u :: u in utxos ==> Known(allTx, u)
        invariant b == balance0 + Sum(allTx, utxos) - Sum(allTx, old(utxos))
      {
        if tx.outputs[j].address != "" {
          usedAddrs := usedAddrs + {tx.outputs[j].address};
          if tx.outputs[j].address in allAddrs {
            ghost var front := utxos;
            utxos := utxos + [Outpoint(h, j)];
            assert utxos[..|utxos| - 1] == front;
            b := b + tx.outputs[j].amount;
          }
        }
        j := j + 1;
      }
    }

    /** Everything that is spent leaves the unspent outputs, from the last to the first. */
    method DropSpent(balance0: nat) returns (b: nat)
      requires (forall u :: u in utxos ==> Known(allTx, u)) && balance0 == Sum(allTx, utxos)
      modifies this`utxos
      ensures utxos == Unspent(old(utxos), spentOutputs)
      ensures (forall u :: u in utxos ==> Known(allTx, u)) && b == Sum(allTx, utxos)
    {
      hide Dropping, Sum, Unspent;
      ghost var was := utxos;
      b := balance0;
      var j: nat := |utxos|;
      DroppingStarts(allTx, was, spentOutputs);
      while j > 0
        invariant j <= |utxos| && Dropping(allTx, was, utxos, spentOutputs, j, b)
      {
        var u := utxos[j - 1];
        DroppingStep(allTx, was, utxos, spentOutputs, j, b);
        if u in spentOutputs {
          b := b - allTx[u.hash].outputs[u.n].amount;
          utxos := utxos[..j - 1] + utxos[j..];
        }
        j := j - 1;
      }
      DroppingEnds(allTx, was, utxos, spentOutputs, b);
    }

    /** The books as they are in the middle of an update, the balance being still in a local variable. */
    ghost predicate BooksAre(s: State, b: nat)
      reads this
    {
      Books().(balance := s.balance) == s && b == s.balance
    }

    /** One transaction of the list. */
    method Account(h: Hash, now: nat, b: nat, prev: nat, ghost s: State) returns (b': nat, prev': nat)
      requires h in allTx && Listed(Env(now), s) && BooksAre(s, b) && prev == b && b == Sum(allTx, utxos)
      modifies this`utxos, this`balanceHist, this`spentOutputs, this`invalidTx, this`pendingTx, this`usedAddrs
      modifies this`totalReceived, this`totalSent
      ensures BooksAre(Step(Env(now), s, h), b') && prev' == b' && Listed(Env(now), Step(Env(now), s, h))
      ensures b' == Sum(allTx, utxos)
    {
      hide Sum, Unspent, OwnOutputs, Conflicts, Waits, Points, UsedAddresses;
      b', prev' := b, prev;
      var tx := allTx[h];
      ConflictsAlike(Books(), s, tx);
      if tx.height == TX_UNCONFIRMED {
        var isInvalid := FindConflict(tx);
        if isInvalid {
          invalidTx := invalidTx + {h};
          balanceHist := balanceHist + [b];
          return;
        }
      }
      AddInputs(tx);
      if tx.height == TX_UNCONFIRMED {
        var isPending := FindReasonToWait(tx, now);
        WaitsAlike(Env(now), Books(), s, tx);
        if isPending {
          pendingTx := pendingTx + {h};
          balanceHist := balanceHist + [b];
          return;
        }
      }
      assert Judge(Env(now), s, tx) == Credited;
      OwnAlike(Env(0), Env(now), h, tx, |tx.outputs|);
      b', prev' := Credit(h, b, prev);
    }

    /** The outputs of a transaction that counts, and what is spent by now. */
    method Credit(h: Hash, b: nat, prev: nat) returns (b': nat, prev': nat)
      requires h in allTx && (forall u :: u in utxos ==> Known(allTx, u)) && b == Sum(allTx, utxos)
      modifies this`utxos, this`balanceHist, this`usedAddrs, this`totalReceived, this`totalSent
      ensures utxos == Unspent(old(utxos) + OwnOutputs(Env(0), h, allTx[h], |allTx[h].outputs|), spentOutputs)
      ensures (forall u :: u in utxos ==> Known(allTx, u)) && b' == Sum(allTx, utxos) && prev' == b'
      ensures usedAddrs == old(usedAddrs) + UsedAddresses(allTx[h])
      ensures totalReceived == old(totalReceived) + if b' > prev then b' - prev else 0
      ensures totalSent == old(totalSent) + if b' < prev then prev - b' else 0
      ensures balanceHist == old(balanceHist) + [b']
    {
      hide Sum, Unspent, OwnOutputs;
      b' := AddOutputs(h, b);
      b' := DropSpent(b');
      if prev < b' {
        totalReceived := totalReceived + (b' - prev);
      }
      if b' < prev {
        totalSent := totalSent + (prev - b');
      }
      balanceHist := balanceHist + [b'];
      prev' := b';
    }

    /** From the first i transactions to the first i + 1. */
    method AccountNext(i: nat, now: nat, b: nat, prev: nat) returns (b': nat, prev': nat)
      requires i < |transactions| && forall h :: h in transactions ==> h in allTx
      requires forall h :: h in transactions[..i] ==> h in allTx
      requires BooksAre(Fold(Env(now), transactions[..i]), b) && prev == b
      requires (forall u :: u in utxos ==> Known(allTx, u)) && b == Sum(allTx, utxos)
      modifies this`utxos, this`balanceHist, this`spentOutputs, this`invalidTx, this`pendingTx, this`usedAddrs
      modifies this`totalReceived, this`totalSent
      ensures (forall h :: h in transactions[..i + 1] ==> h in allTx)
      ensures BooksAre(Fold(Env(now), transactions[..i + 1]), b') && prev' == b'
      ensures (forall u :: u in utxos ==> Known(allTx, u)) && b' == Sum(allTx, utxos)
    {
      hide Fold, Step, Sum;
      var h := transactions[i];
      ghost var s := Fold(Env(now), transactions[..i]);
      assert h in transactions;
      FoldListed(Env(now), transactions[..i]);
      b', prev' := Account(h, now, b, prev, s);
      FoldStep(Env(now), transactions[..i], h);
      assert transactions[..i + 1] == transactions[..i] + [h];
    }

    /** The books are made again from the list. */
    method UpdateBalance(now: nat)
      requires ListKnown()
      modifies this`utxos, this`balance, this`balanceHist, this`spentOutputs, this`invalidTx, this`pendingTx
      modifies this`usedAddrs, this`totalReceived, this`totalSent
      ensures Books() == Fold(Env(now), transactions) && BooksValid()
    {
      hide Fold, Step, Sum, Related, Acyclic, Sorted, Distinct, Known;
      utxos, balanceHist := [], [];
      spentOutputs, invalidTx, pendingTx, usedAddrs := {}, {}, {}, {};
      totalSent, totalReceived := 0, 0;
      SumOfNone(allTx);
      var b := AccountList(now);
      balance := b;
      FoldBooks(Env(now), transactions);
    }

    /** The whole list, the books being empty at first. */
    method AccountList(now: nat) returns (b: nat)
      requires (forall h :: h in transactions ==> h in allTx) && BooksAre(START, 0)
      requires (forall u :: u in utxos ==> Known(allTx, u)) && Sum(allTx, utxos) == 0
      modifies this`utxos, this`balanceHist, this`spentOutputs, this`invalidTx, this`pendingTx, this`usedAddrs
      modifies this`totalReceived, this`totalSent
      ensures BooksAre(Fold(Env(now), transactions), b)
    {
      hide Fold, Step, Sum;
      b := 0;
      var prev := 0;
      var i: nat := 0;
      FoldStarts(Env(now));
      while i < |transactions|
        invariant i <= |transactions| && forall h :: h in transactions[..i] ==> h in allTx
        invariant BooksAre(Fold(Env(now), transactions[..i]), b) && prev == b
        invariant (forall u :: u in utxos ==> Known(allTx, u)) && b == Sum(allTx, utxos)
      {
        b, prev := AccountNext(i, now, b, prev);
        i := i + 1;
      }
      assert transactions[..i] == transactions;
    }

    // ----- Registering and updating -----

    method ContainsTx(tx: Tx) returns (r: bool)
      ensures r <==> Related(allTx, allAddrs, tx)
    {
      r := false;
      var i := 0;
      while !r && i < |tx.outputs|
        invariant 0 <= i <= |tx.outputs|
        invariant r <==> exists j :: 0 <= j < i && tx.outputs[j].address in allAddrs
      {
        if tx.outputs[i].address in allAddrs {
          r := true;
        }
        i := i + 1;
      }
      ghost var paid := r;
      i := 0;
      while !r && i < |tx.inputs|
        invariant 0 <= i <= |tx.inputs|
        invariant r <==> paid || exists j | 0 <= j < i && Known(allTx, tx.inputs[j].point) ::
          allTx[tx.inputs[j].point.hash].outputs[tx.inputs[j].point.n].address in allAddrs
      {
        var p := tx.inputs[i].point;
        if p.hash in allTx && p.n < |allTx[p.hash].outputs| && allTx[p.hash].outputs[p.n].address in allAddrs {
          r := true;
        }
        i := i + 1;
      }
    }

    method Enter(h: Hash, tx: Tx, now: nat)
      requires ListValid() && h !in allTx && Related(allTx, allAddrs, tx)
      requires forall i :: 0 <= i < |tx.inputs| ==> rank(tx.inputs[i].point.hash) < rank(h)
      modifies this
      ensures Valid() && allTx == old(allTx)[h := tx] && Books() == Fold(Env(now), transactions)
      ensures forall g :: g in transactions <==> g == h || g in old(transactions)
      ensures allAddrs == old(allAddrs) && blockHeight == old(blockHeight) && feePerKb == old(feePerKb)
      ensures internalChain == old(internalChain) && externalChain == old(externalChain)
    {
      hide Fold, Related, Sum, Acyclic, Sorted, Distinct;
      ListGrows(allTx, allAddrs, rank, transactions, h, tx);
      allTx := allTx[h := tx];
      assert h !in transactions;
      InsertTx(h);
      UpdateBalance(now);
    }

    /** A signed transaction related to the wallet enters the list and the books; an unconfirmed one that is not
        is only remembered. New addresses are generated for the ones it uses. */
    method RegisterTransaction(h: Hash, tx: Tx, signed: bool, now: nat, internal: seq<Address>, external: seq<Address>)
      returns (r: bool)
      requires Valid()
      requires forall i :: 0 <= i < |tx.inputs| ==> rank(tx.inputs[i].point.hash) < rank(h)
      modifies this
      ensures Valid()
      ensures r <==> signed && (h in old(allTx) || Related(old(allTx), old(allAddrs), tx))
      ensures !signed || h in old(allTx) ==>
        allTx == old(allTx) && transactions == old(transactions) && Books() == old(Books()) && allAddrs == old(allAddrs)
      ensures signed && h !in old(allTx) ==>
        if Related(old(allTx), old(allAddrs), tx) then
          allTx == old(allTx)[h := tx] && (forall g :: g in transactions <==> g == h || g in old(transactions)) &&
          Books() == Fold(Env(now).(addrs := old(allAddrs)), transactions) &&
          allAddrs == old(allAddrs) + (set a | a in internal + external)
        else
          allTx == (if tx.height == TX_UNCONFIRMED then old(allTx)[h := tx] else old(allTx)) &&
          transactions == old(transactions) && Books() == old(Books()) && allAddrs == old(allAddrs)
      ensures blockHeight == old(blockHeight) && feePerKb == old(feePerKb)
      ensures var added := signed && h !in old(allTx) && Related(old(allTx), old(allAddrs), tx);
        internalChain == (if added then old(internalChain) + internal else old(internalChain)) &&
        externalChain == (if added then old(externalChain) + external else old(externalChain))
    {
      hide Fold, Related, Sum, Acyclic, Sorted, Distinct;
      if !signed {
        return false;
      }
      r := true;
      if h !in allTx {
        var related := ContainsTx(tx);
        if related {
          Enter(h, tx, now);
          internalChain := internalChain + internal;
          externalChain := externalChain + external;
          MoreAddresses(allTx, allAddrs, allAddrs + set a | a in internal + external);
          allAddrs := allAddrs + set a | a in internal + external;
        } else {
          if tx.height == TX_UNCONFIRMED {
            Remembered(allTx, h, tx, utxos);
            ListGrows(allTx, allAddrs, rank, transactions, h, tx);
            allTx := allTx[h := tx];
          }
          r := false;
        }
      }
    }

    /** A listed transaction whose height has changed moves to its new place. */
    method Replace(h: Hash, tx: Tx)
      requires Valid() && h in allTx && tx.inputs == allTx[h].inputs && tx.outputs == allTx[h].outputs
      modifies this`allTx, this`transactions
      ensures Valid() && allTx == old(allTx)[h := tx]
      ensures forall g :: g in transactions <==> g in old(transactions)
    {
      hide Related, Sum, Sorted, SortedBut, Distinct, Acyclic;
      ghost var was := transactions;
      SortedExcept(allTx, transactions, h, tx);
      Reheighted(allTx, allAddrs, rank, transactions, h, tx, utxos);
      allTx := allTx[h := tx];
      var k: nat := |transactions|;
      while k > 0
        invariant k <= |was| && forall j :: k <= j < |was| ==> was[j] != h
      {
        if transactions[k - 1] == h {
          Move(k - 1);
          return;
        }
        k := k - 1;
      }
      assert h !in transactions;
      SortedAlike(old(allTx), allTx, transactions);
    }

    /** Removal from position k and insertion where the height now belongs. */
    method Move(k: nat)
      requires k < |transactions| && Acyclic(allTx, rank) && Distinct(transactions)
      requires (forall g :: g in transactions ==> g in allTx) && SortedBut(allTx, transactions, transactions[k])
      modifies this`transactions
      ensures Distinct(transactions) && (forall g :: g in transactions <==> g in old(transactions))
      ensures (forall g :: g in transactions ==> g in allTx) && Sorted(allTx, transactions)
    {
      hide Sorted, SortedBut, Distinct, Acyclic;
      ghost var was := transactions;
      var h := transactions[k];
      assert h in transactions;
      TakenOut(was, k);
      SortedWithout(allTx, was, k);
      transactions := transactions[..k] + transactions[k + 1..];
      InsertTx(h);
    }

    /** A transaction that is not the wallet's is forgotten. */
    method Forget(h: Hash)
      requires Valid() && h in allTx && !Related(allTx, allAddrs, allTx[h])
      modifies this`allTx
      ensures Valid() && allTx == old(allTx) - {h}
      ensures forall t: Tx :: Related(old(allTx), allAddrs, t) <==> Related(allTx, allAddrs, t)
    {
      hide Related, Sum, Sorted;
      Forgotten(allTx, allAddrs, h);
      OwnStay(allTx, allAddrs, h, utxos);
      SortedAlike(allTx, allTx - {h}, transactions);
      allTx := allTx - {h};
    }

    /** A transaction that needs the update: it moves in the list, or is forgotten, or just changes. */
    method UpdateOne(h: Hash, height: nat, timestamp: nat) returns (related: bool)
      requires Valid() && h in allTx
      modifies this`allTx, this`transactions
      ensures Valid() && (forall g :: g in transactions <==> g in old(transactions))
      ensures forall t: Tx :: Related(old(allTx), allAddrs, t) <==> Related(allTx, allAddrs, t)
      ensures related <==> Related(old(allTx), allAddrs, old(allTx)[h])
      ensures allTx ==
        if height != TX_UNCONFIRMED && !related then old(allTx) - {h}
        else old(allTx)[h := old(allTx)[h].(height := height, timestamp := timestamp)]
    {
      hide Related, Sum, Sorted, Acyclic, Distinct;
      var tx := allTx[h].(height := height, timestamp := timestamp);
      RelatedByContents(allTx, allAddrs, allTx[h], tx);
      Reheighted(allTx, allAddrs, rank, transactions, h, tx, utxos);
      related := ContainsTx(tx);
      if related {
        Replace(h, tx);
      } else if height != TX_UNCONFIRMED {
        Forget(h);
      } else {
        assert h !in transactions;
        SortedAlike(allTx, allTx[h := tx], transactions);
        allTx := allTx[h := tx];
      }
    }

    /** One of the named transactions, done being those before it: it is updated if it still needs it. */
    method UpdateNext(h: Hash, height: nat, timestamp: nat, ghost all0: map<Hash, Tx>, ghost done: seq<Hash>)
      returns (related: bool)
      requires Valid() && Updated(all0, allAddrs, done, height, timestamp, allTx)
      requires forall t: Tx :: Related(all0, allAddrs, t) <==> Related(allTx, allAddrs, t)
      modifies this`allTx, this`transactions
      ensures Valid() && (forall g :: g in transactions <==> g in old(transactions))
      ensures Updated(all0, allAddrs, done + [h], height, timestamp, allTx)
      ensures forall t: Tx :: Related(all0, allAddrs, t) <==> Related(allTx, allAddrs, t)
      ensures related ==> Stale(all0, h, height, timestamp) && Related(all0, allAddrs, all0[h])
      ensures Stale(all0, h, height, timestamp) && Related(all0, allAddrs, all0[h]) ==> related || h in done
    {
      hide Related, Sum, Sorted, Acyclic, Distinct, Updated;
      related := false;
      ghost var was := allTx;
      if h in allTx && !(allTx[h].height == height && allTx[h].timestamp == timestamp) {
        StillStale(all0, allAddrs, done, height, timestamp, allTx, h);
        related := UpdateOne(h, height, timestamp);
      }
      AlreadyUpdated(all0, allAddrs, done, height, timestamp, was, h);
      UpdatedStep(all0, allAddrs, done, height, timestamp, h, was, allTx);
    }

    /** New heights and times. The list stays sorted, its members stay the same, and the books are made again
        when a pending or invalid transaction is among the updated ones, which are returned. */
    method UpdateTransactions(hashes: seq<Hash>, height: nat, timestamp: nat, now: nat) returns (updated: seq<Hash>)
      requires Valid()
      modifies this`allTx, this`transactions, this`blockHeight
      modifies this`utxos, this`balance, this`balanceHist, this`spentOutputs, this`invalidTx, this`pendingTx
      modifies this`usedAddrs, this`totalReceived, this`totalSent
      ensures Valid() && (forall g :: g in transactions <==> g in old(transactions))
      ensures Updated(old(allTx), old(allAddrs), hashes, height, timestamp, allTx)
      ensures forall g :: g in updated ==>
        g in hashes && Stale(old(allTx), g, height, timestamp) && Related(old(allTx), old(allAddrs), old(allTx)[g])
      ensures forall g | g in hashes && Stale(old(allTx), g, height, timestamp) ::
        Related(old(allTx), old(allAddrs), old(allTx)[g]) ==> g in updated
      ensures blockHeight == if height > old(blockHeight) then height else old(blockHeight)
      ensures Books() ==
        if exists g :: g in updated && (g in old(pendingTx) || g in old(invalidTx)) then Fold(Env(now), transactions)
        else old(Books())
    {
      hide Fold, Related, Sum, Sorted, Acyclic, Distinct, Updated;
      ghost var all0, addrs := allTx, allAddrs;
      NothingUpdated(allTx, addrs, height, timestamp);
      var needsUpdate := false;
      if height > blockHeight {
        blockHeight := height;
      }
      updated := [];
      var i: nat := 0;
      while i < |hashes|
        invariant i <= |hashes| && Valid() && Books() == old(Books())
        invariant blockHeight == if height > old(blockHeight) then height else old(blockHeight)
        invariant forall g :: g in transactions <==> g in old(transactions)
        invariant Updated(all0, addrs, hashes[..i], height, timestamp, allTx)
        invariant forall t: Tx :: Related(all0, addrs, t) <==> Related(allTx, addrs, t)
        invariant forall g :: g in updated <==>
          g in hashes[..i] && Stale(all0, g, height, timestamp) && Related(all0, addrs, all0[g])
        invariant needsUpdate <==> exists g :: g in updated && (g in pendingTx || g in invalidTx)
      {
        var h := hashes[i];
        assert hashes[..i + 1] == hashes[..i] + [h];
        var related := UpdateNext(h, height, timestamp, all0, hashes[..i]);
        if related {
          updated := updated + [h];
          if h in pendingTx || h in invalidTx {
            needsUpdate := true;
          }
        }
        i := i + 1;
      }
      assert hashes[..i] == hashes;
      if needsUpdate {
        UpdateBalance(now);
      }
    }

    /** Marks everything confirmed after the height as unconfirmed and makes the books again. The list stays sorted
        unless what is below the height lies above the height that stands for unconfirmed. */
    method SetTxUnconfirmedAfter(height: nat, now: nat)
      requires Valid()
      modifies this`allTx, this`transactions, this`blockHeight
      modifies this`utxos, this`balance, this`balanceHist, this`spentOutputs, this`invalidTx, this`pendingTx
      modifies this`usedAddrs, this`totalReceived, this`totalSent
      ensures ListKnown() && BooksValid() && transactions == old(transactions) && blockHeight == height
      ensures Valid() <==> old(MarkerFits(allTx, transactions, height))
      ensures allTx.Keys == old(allTx).Keys
      ensures forall g | g in allTx ::
        allTx[g] ==
          if g in transactions && old(allTx)[g].height > height then old(allTx)[g].(height := TX_UNCONFIRMED)
          else old(allTx)[g]
      ensures Books() ==
        if exists g :: g in transactions && old(allTx)[g].height > height then Fold(Env(now), transactions)
        else old(Books())
    {
      hide Fold, Related, Sum, Acyclic, Sorted, Distinct, Marked, MarkerFits;
      blockHeight := height;
      ghost var all0 := allTx;
      var i := FindCut(height);
      var count := |transactions| - i;
      MarkUnconfirmed(i);
      SortedAfter(all0, allTx, transactions, i, height);
      MarkedAbove(all0, allTx, transactions, i, height);
      if count > 0 {
        assert transactions[i] in transactions[i..];
        UpdateBalance(now);
      }
    }

    /** Where the transactions above the height begin. */
    method FindCut(height: nat) returns (i: nat)
      requires ListValid()
      ensures i <= |transactions|
      ensures forall h :: h in transactions ==> (h in transactions[i..] <==> allTx[h].height > height)
      ensures forall k | 0 <= k < i ::
        transactions[k] in transactions && allTx[transactions[k]].height <= height &&
        transactions[k] !in transactions[i..]
    {
      hide Related, Acyclic, Sorted, Distinct;
      i := |transactions|;
      while i > 0 && allTx[transactions[i - 1]].height > height
        invariant i <= |transactions|
        invariant forall k | i <= k < |transactions| ::
          transactions[k] in transactions && allTx[transactions[k]].height > height
      {
        i := i - 1;
      }
      SortedSplit(allTx, transactions, i, height);
    }

    /** The transactions from position i on lose their height. */
    method MarkUnconfirmed(i: nat)
      requires i <= |transactions| && Acyclic(allTx, rank) && BooksValid()
      requires forall g :: g in transactions ==> g in allTx && Related(allTx, allAddrs, allTx[g])
      modifies this`allTx
      ensures Acyclic(allTx, rank) && BooksValid() && Marked(old(allTx), allTx, transactions[i..])
      ensures forall g :: g in transactions ==> g in allTx && Related(allTx, allAddrs, allTx[g])
    {
      hide Related, Sum, Acyclic, Distinct, Marked;
      MarkedNone(allTx);
      assert transactions[i..i] == [];
      var j: nat := 0;
      while j < |transactions| - i
        invariant i + j <= |transactions| && BooksValid() && Acyclic(allTx, rank)
        invariant forall g :: g in transactions ==> g in allTx && Related(allTx, allAddrs, allTx[g])
        invariant Marked(old(allTx), allTx, transactions[i..i + j])
      {
        var h := transactions[i + j];
        assert transactions[i..i + j + 1] == transactions[i..i + j] + [h];
        assert h in transactions;
        var tx := allTx[h].(height := TX_UNCONFIRMED);
        Reheighted(allTx, allAddrs, rank, transactions, h, tx, utxos);
        MarkedMore(old(allTx), allTx, transactions[i..i + j], h);
        allTx := allTx[h := tx];
        j := j + 1;
      }
      assert transactions[i..i + j] == transactions[i..];
    }

    /** The transactions at or above the height: how many they are, or as many of them as the buffer takes. */
    method TxUnconfirmedBefore(buffer: array?<Hash>, height: nat) returns (count: nat)
      requires Valid()
      modifies buffer
      ensures var above := AtLeast(allTx, transactions, height);
        count == (if buffer == null || |above| < buffer.Length then |above| else buffer.Length) &&
        (buffer != null ==> buffer[..] == above[..count] + old(buffer[count..]))
    {
      hide Related, Sum, Acyclic, Sorted, Distinct, AtLeast;
      var total := |transactions|;
      var n := CountAtLeast(height);
      ghost var above := transactions[total - n..];
      count := if buffer == null || n < buffer.Length then n else buffer.Length;
      if buffer != null {
        forall k | 0 <= k < count {
          buffer[k] := transactions[total - n + k];
        }
        assert buffer[..count] == above[..count];
      }
    }

    /** How many transactions at the end of the list are at or above the height. */
    method CountAtLeast(height: nat) returns (n: nat)
      requires ListValid()
      ensures n <= |transactions| && AtLeast(allTx, transactions, height) == transactions[|transactions| - n..]
    {
      hide Related, Acyclic, Sorted, Distinct, AtLeast;
      var total := |transactions|;
      n := 0;
      while n < total && allTx[transactions[total - n - 1]].height >= height
        invariant n <= total
        invariant forall k | total - n <= k < total ::
          transactions[k] in transactions && allTx[transactions[k]].height >= height
      {
        n := n + 1;
      }
      SuffixIsAtLeast(allTx, transactions, total - n, height);
    }

    // ----- Paying -----

    function Purse(): Purse
      reads this
    {
      Payments.Purse(allTx, utxos, balance, feePerKb)
    }

    /** A payment for the outputs, with its outputs shuffled when change is among them. */
    method CreateTxForOutputs(outs: seq<Pay>, changeScript: seq<Byte>, draw: (nat, nat) -> nat) returns (r: Outcome)
      requires forall i, n :: n > 0 ==> draw(i, n) < n
      ensures match Pays(Purse(), outs, changeScript)
        case Paid(p) => r.Paid? && r.payment.inputs == p.inputs && multiset(r.payment.outputs) == multiset(p.outputs)
        case other => r == other
    {
      hide TxFee, Size, Sum, Purchasing, FeeAmount, Enough, Total, TooLarge, Payable;
      ghost var w := Purse();
      var amount: nat := AddUp(outs);
      var minAmount := MinOutputAmount(feePerKb);
      var tooLarge, inputs, paid, feeAmount := TakeInputs(outs, amount, minAmount);
      if tooLarge {
        return TooMany;
      }
      if |outs| < 1 || paid < amount + feeAmount {
        return Insufficient;
      }
      var left: nat := paid - (amount + feeAmount);
      if left > minAmount {
        var change := Transactions.TxOut(left, changeScript);
        var outputs := new Pay[|outs| + 1](i => if 0 <= i < |outs| then outs[i] else change);
        assert outputs[..] == outs + [change];
        ShuffleOutputs(outputs, draw);
        r := Paid(Payment(inputs, outputs[..]));
      } else {
        r := Paid(Payment(inputs, outs));
      }
    }

    /** Adds unspent outputs until there is enough. */
    method TakeInputs(outs: seq<Pay>, amount: nat, minAmount: nat)
      returns (tooLarge: bool, inputs: seq<Outpoint>, paid: nat, feeAmount: nat)
      requires amount == Total(outs) && minAmount == MinOutputAmount(feePerKb)
      ensures match Select(Purse(), outs, 0)
        case Oversize => tooLarge
        case Selected(k) =>
          !tooLarge && inputs == Payable(allTx, utxos)[..k] && paid == Purchasing(Purse(), k) &&
          feeAmount == FeeAmount(Purse(), outs, k)
    {
      hide TxFee, Size, Sum, Total, Purchasing, Payable, Select, MinOutputAmount, Known;
      ghost var w := Purse();
      tooLarge, inputs, paid := false, [], 0;
      feeAmount := TxFee(feePerKb, Size(0, outs) + TX_OUTPUT_SIZE);
      PayableFirst(w, 0);
      var i: nat := 0;
      while i < |utxos|
        invariant i <= |utxos| && !tooLarge && inputs == Payable(allTx, utxos[..i])
        invariant |inputs| <= |Payable(allTx, utxos)| && inputs == Payable(allTx, utxos)[..|inputs|]
        invariant paid == Purchasing(w, |inputs|) && feeAmount == FeeAmount(w, outs, |inputs|)
        invariant Select(w, outs, 0) == Select(w, outs, |inputs|)
      {
        var o := utxos[i];
        PayableFirst(w, i + 1);
        i := i + 1;
        KnownIs(allTx, o);
        if o.hash !in allTx || o.n >= |allTx[o.hash].outputs| {
          continue;
        }
        PayableNext(w, i - 1);
        SelectStep(w, outs, |inputs|);
        inputs := inputs + [o];
        if Size(|inputs|, outs) + TX_OUTPUT_SIZE > TX_MAX_SIZE {
          tooLarge := true;
          return;
        }
        paid := paid + allTx[o.hash].outputs[o.n].amount;
        feeAmount := TxFee(feePerKb, Size(|inputs|, outs) + TX_OUTPUT_SIZE);
        if balance > amount + feeAmount {
          feeAmount := feeAmount + (balance - (amount + feeAmount)) % 100;
        }
        if paid == amount + feeAmount || paid >= amount + feeAmount + minAmount {
          return;
        }
      }
      assert utxos[..i] == utxos;
      SelectStep(w, outs, |inputs|);
    }

    method AddUp(outs: seq<Pay>) returns (amount: nat)
      ensures amount == Total(outs)
    {
      amount := 0;
      var i: nat := 0;
      while i < |outs|
        invariant i <= |outs| && amount == Total(outs[..i])
      {
        TotalSnoc(outs[..i], outs[i]);
        assert outs[..i + 1] == outs[..i] + [outs[i]];
        amount := amount + outs[i].amount;
        i := i + 1;
      }
      assert outs[..i] == outs;
    }

    /** The most that can be paid to one output. */
    method MaxAmount() returns (r: nat)
      ensures r == MaxOutputAmount(Purse())
    {
      hide TxFee, Sum;
      var amount: nat := 0;
      var inCount: nat := 0;
      var i: nat := |utxos|;
      PurchaseEnds(allTx, utxos);
      while i > 0
        invariant i <= |utxos|
        invariant amount + SumPayable(allTx, utxos[..i]) == SumPayable(allTx, utxos)
        invariant inCount + |Payable(allTx, utxos[..i])| == |Payable(allTx, utxos)|
      {
        var o := utxos[i - 1];
        PurchaseBack(allTx, utxos, i);
        i := i - 1;
        if o.hash !in allTx || o.n >= |allTx[o.hash].outputs| {
          continue;
        }
        inCount := inCount + 1;
        amount := amount + allTx[o.hash].outputs[o.n].amount;
      }
      var txSize := 8 + VarIntSize(inCount) + Transactions.TX_INPUT_SIZE * inCount + VarIntSize(2) + TX_OUTPUT_SIZE * 2;
      var fee := TxFee(feePerKb, txSize);
      r := if amount > fee then amount - fee else 0;
    }

    /** What CreateTxForOutputs returns: it keeps the requested outputs, spends different unspent outputs of the
        wallet, and leaves at least the fee for its own size. */
    lemma CreatedTxCovers(outs: seq<Pay>, changeScript: seq<Byte>, p: Payment)
      requires Valid() && Pays(Purse(), outs, changeScript).Paid? && ChangeFits(outs, changeScript)
      requires p.inputs == Pays(Purse(), outs, changeScript).payment.inputs
      requires multiset(p.outputs) == multiset(Pays(Purse(), outs, changeScript).payment.outputs)
      ensures multiset(outs) <= multiset(p.outputs) && |p.outputs| <= |outs| + 1
      ensures Distinct(p.inputs) && forall u :: u in p.inputs ==> u in utxos && Known(allTx, u)
      ensures Sum(allTx, p.inputs) >= Total(p.outputs) + TxFee(feePerKb, Size(|p.inputs|, p.outputs))
      ensures Sum(allTx, p.inputs) <=
        Total(p.outputs) + TxFee(feePerKb, Size(|p.inputs|, outs) + TX_OUTPUT_SIZE) + 99 + MinOutputAmount(feePerKb)
      ensures multiset(p.outputs) == multiset(outs) ||
        exists change: Pay :: multiset(p.outputs) == multiset(outs + [change]) && change.script == changeScript
    {
      hide Pays, Sum, Total, TxFee, Transactions.OutputsSize, MinOutputAmount;
      NothingLost(Purse(), outs, changeScript);
      PaymentKeeps(Purse(), outs, changeScript);
      PaymentCovers(Purse(), outs, changeScript);
      ShuffledSame(p.outputs, Pays(Purse(), outs, changeScript).payment.outputs);
    }

    /** In a valid wallet the most that can be paid to one output of a usual size is really paid, when a
        transaction spending everything is not too large. */
    lemma MaxAmountIsPaid(o: Pay, changeScript: seq<Byte>)
      requires Valid() && o.amount == MaxOutputAmount(Purse()) > 0 && |o.script| <= 25
      ensures Pays(Purse(), [o], changeScript) != Insufficient
      ensures !TooLarge([o], |utxos|) ==> Pays(Purse(), [o], changeScript).Paid?
    {
      hide Sum, TxFee, TooLarge;
      AllPayable(allTx, utxos);
      MaxOutputIsPaid(Purse(), o, changeScript);
      if !TooLarge([o], |utxos|) {
        SelectFits(Purse(), [o], 0);
      }
    }
  }

  /** These are unconfirmed now, and nothing else has changed. */
  predicate Marked(all: map<Hash, Tx>, now: map<Hash, Tx>, marks: seq<Hash>) {
    all.Keys == now.Keys &&
    forall g :: g in now ==> now[g] == if g in marks then all[g].(height := TX_UNCONFIRMED) else all[g]
  }

  lemma MarkedNone(all: map<Hash, Tx>)
    ensures Marked(all, all, [])
  {
  }

  lemma MarkedMore(all: map<Hash, Tx>, now: map<Hash, Tx>, marks: seq<Hash>, h: Hash)
    requires Marked(all, now, marks) && h in now
    ensures Marked(all, now[h := now[h].(height := TX_UNCONFIRMED)], marks + [h])
  {
  }

  lemma MarkedAbove(all: map<Hash, Tx>, now: map<Hash, Tx>, hs: seq<Hash>, i: nat, height: nat)
    requires i <= |hs| && (forall h :: h in hs ==> h in all) && Marked(all, now, hs[i..])
    requires forall h :: h in hs ==> (h in hs[i..] <==> all[h].height > height)
    ensures all.Keys == now.Keys
    ensures forall g :: g in now ==>
      now[g] == if g in hs && all[g].height > height then all[g].(height := TX_UNCONFIRMED) else all[g]
    ensures i < |hs| <==> exists g :: g in hs && all[g].height > height
  {
    assert i < |hs| ==> hs[i] in hs && hs[i..][0] == hs[i];
  }

  /** The listed transactions at or above a height, in their order. */
  function AtLeast(all: map<Hash, Tx>, hs: seq<Hash>, height: nat): seq<Hash>
    requires forall h :: h in hs ==> h in all
  {
    if hs == [] then []
    else
      assert hs[|hs| - 1] in hs;
      AtLeast(all, hs[..|hs| - 1], height) + if all[hs[|hs| - 1]].height >= height then [hs[|hs| - 1]] else []
  }

  lemma AtLeastSnoc(all: map<Hash, Tx>, hs: seq<Hash>, h: Hash, height: nat)
    requires (forall g :: g in hs ==> g in all) && h in all
    ensures (forall g :: g in hs + [h] ==> g in all)
    ensures AtLeast(all, hs + [h], height) == AtLeast(all, hs, height) + if all[h].height >= height then [h] else []
  {
    assert (hs + [h])[..|hs|] == hs;
  }

  /** In a sorted list they are the end of it. */
  lemma SuffixIsAtLeast(all: map<Hash, Tx>, hs: seq<Hash>, i: nat, height: nat)
    requires (forall h :: h in hs ==> h in all) && Sorted(all, hs) && i <= |hs|
    requires i > 0 ==> hs[i - 1] in hs && all[hs[i - 1]].height < height
    requires forall k :: i <= k < |hs| ==> hs[k] in hs && all[hs[k]].height >= height
    ensures AtLeast(all, hs, height) == hs[i..]
  {
    hide AtLeast;
    forall k | 0 <= k < i
      ensures hs[k] in all && all[hs[k]].height < height
    {
      assert k < i - 1 ==> all[hs[k]].height <= all[hs[i - 1]].height;
    }
    CutIsAtLeast(all, hs, i, height);
  }

  lemma {:induction false} CutIsAtLeast(all: map<Hash, Tx>, hs: seq<Hash>, i: nat, height: nat)
    requires (forall h :: h in hs ==> h in all) && i <= |hs|
    requires forall k :: 0 <= k < i ==> hs[k] in all && all[hs[k]].height < height
    requires forall k :: i <= k < |hs| ==> hs[k] in all && all[hs[k]].height >= height
    ensures AtLeast(all, hs, height) == hs[i..]
    decreases |hs|
  {
    hide AtLeast;
    if hs == [] {
      AtLeastNone(all, height);
    } else {
      var front, h := hs[..|hs| - 1], hs[|hs| - 1];
      assert hs == front + [h];
      CutIsAtLeast(all, front, if i < |hs| then i else i - 1, height);
      AtLeastSnoc(all, front, h, height);
    }
  }

  lemma AtLeastNone(all: map<Hash, Tx>, height: nat)
    ensures AtLeast(all, [], height) == []
  {
  }

  /** Where the list is cut, everything before is at most the height, and everything after above it. */
  lemma SortedSplit(all: map<Hash, Tx>, hs: seq<Hash>, i: nat, height: nat)
    requires (forall h :: h in hs ==> h in all) && Sorted(all, hs) && Distinct(hs) && i <= |hs|
    requires i > 0 ==> hs[i - 1] in hs && all[hs[i - 1]].height <= height
    requires forall k :: i <= k < |hs| ==> hs[k] in hs && all[hs[k]].height > height
    ensures forall h :: h in hs ==> (h in hs[i..] <==> all[h].height > height)
    ensures forall k :: 0 <= k < i ==> hs[k] in hs && all[hs[k]].height <= height && hs[k] !in hs[i..]
  {
    forall k | 0 <= k < |hs|
      ensures hs[k] in hs && (k < i ==> all[hs[k]].height <= height && hs[k] !in hs[i..])
      ensures k >= i ==> hs[k] in hs[i..]
    {
      assert k < i - 1 ==> all[hs[k]].height <= all[hs[i - 1]].height;
      assert k >= i ==> hs[i..][k - i] == hs[k];
    }
  }

  /** Nothing that stays confirmed lies above the height that stands for unconfirmed, if anything gets it. */
  predicate MarkerFits(all: map<Hash, Tx>, hs: seq<Hash>, height: nat)
    requires forall h :: h in hs ==> h in all
  {
    forall g, k :: g in hs && k in hs && all[g].height <= height < all[k].height ==> all[g].height <= TX_UNCONFIRMED
  }

  lemma SortedAfter(all: map<Hash, Tx>, now: map<Hash, Tx>, hs: seq<Hash>, i: nat, height: nat)
    requires (forall h :: h in hs ==> h in all) && Sorted(all, hs) && i <= |hs|
    requires Marked(all, now, hs[i..])
    requires forall k :: 0 <= k < i ==> hs[k] in hs && all[hs[k]].height <= height && hs[k] !in hs[i..]
    requires forall h :: h in hs ==> (h in hs[i..] <==> all[h].height > height)
    ensures Sorted(now, hs) <==> MarkerFits(all, hs, height)
  {
    forall k | i <= k < |hs|
      ensures hs[k] in hs && hs[k] in hs[i..] && now[hs[k]].height == TX_UNCONFIRMED
    {
      assert hs[i..][k - i] == hs[k];
    }
    if MarkerFits(all, hs, height) {
      forall j, k | 0 <= j < k < |hs|
        ensures hs[j] in hs && hs[k] in hs && now[hs[j]].height <= now[hs[k]].height
      {
      }
    }
    if Sorted(now, hs) {
      forall g, k | g in hs && k in hs && all[g].height <= height < all[k].height
        ensures all[g].height <= TX_UNCONFIRMED
      {
        var x :| 0 <= x < |hs| && hs[x] == g;
        var y :| 0 <= y < |hs| && hs[y] == k;
        assert x < i <= y;
        assert now[hs[x]].height <= now[hs[y]].height;
      }
    }
  }

  lemma LowMarkerFits(all: map<Hash, Tx>, hs: seq<Hash>, height: nat)
    requires (forall h :: h in hs ==> h in all) && height <= TX_UNCONFIRMED
    ensures MarkerFits(all, hs, height)
  {
  }

  predicate Stale(all: map<Hash, Tx>, h: Hash, height: nat, timestamp: nat) {
    h in all && !(all[h].height == height && all[h].timestamp == timestamp)
  }

  /** The named transactions have the new height and time, except that those not related to the wallet are
      forgotten when a block confirms them; all others are as before. */
  ghost predicate Updated(all: map<Hash, Tx>, addrs: set<Address>, hashes: seq<Hash>, height: nat, timestamp: nat,
                          now: map<Hash, Tx>) {
    forall g ::
      (g in now <==>
        g in all && !(g in hashes && Stale(all, g, height, timestamp) &&
                      height != TX_UNCONFIRMED && !Related(all, addrs, all[g]))) &&
      (g in now && g in all ==>
        now[g] == if g in hashes then all[g].(height := height, timestamp := timestamp) else all[g])
  }

  /** What is known afterwards, and with which height and time. A transaction is forgotten exactly when it is named,
      gets a new height or time from a block, and has nothing to do with the wallet. */
  lemma UpdatedIs(all: map<Hash, Tx>, addrs: set<Address>, hashes: seq<Hash>, height: nat, timestamp: nat,
                  now: map<Hash, Tx>, g: Hash)
    requires Updated(all, addrs, hashes, height, timestamp, now)
    ensures g in now ==>
      g in all && now[g] == if g in hashes then all[g].(height := height, timestamp := timestamp) else all[g]
    ensures g in all ==>
      (g !in now <==>
        g in hashes && (all[g].height != height || all[g].timestamp != timestamp) && height != 0x7fff_ffff &&
        (forall o :: o in all[g].outputs ==> o.address !in addrs) &&
        forall i :: i in all[g].inputs && i.point.hash in all && i.point.n < |all[i.point.hash].outputs| ==>
          all[i.point.hash].outputs[i.point.n].address !in addrs)
  {
    if g in all {
      RelatedIff(all, addrs, all[g]);
    }
  }

  /** A transaction has to do with the wallet when it pays one of its addresses, or spends an output that did. */
  lemma RelatedIff(all: map<Hash, Tx>, addrs: set<Address>, tx: Tx)
    ensures !Related(all, addrs, tx) <==>
      (forall o :: o in tx.outputs ==> o.address !in addrs) &&
      forall i :: i in tx.inputs && i.point.hash in all && i.point.n < |all[i.point.hash].outputs| ==>
        all[i.point.hash].outputs[i.point.n].address !in addrs
  {
    if Related(all, addrs, tx) {
      if j :| 0 <= j < |tx.outputs| && tx.outputs[j].address in addrs {
        assert tx.outputs[j] in tx.outputs;
      } else {
        var i :| 0 <= i < |tx.inputs| && Known(all, tx.inputs[i].point) &&
          all[tx.inputs[i].point.hash].outputs[tx.inputs[i].point.n].address in addrs;
        assert tx.inputs[i] in tx.inputs;
      }
    }
  }

  /** Only heights and the like change: amounts, relations and spending stay. */
  lemma Reheighted(all: map<Hash, Tx>, addrs: set<Address>, rank: Hash -> nat, hs: seq<Hash>, h: Hash, tx: Tx,
                   us: seq<Outpoint>)
    requires Acyclic(all, rank) && h in all && tx.inputs == all[h].inputs && tx.outputs == all[h].outputs
    requires forall g :: g in hs ==> g in all && Related(all, addrs, all[g])
    requires forall u :: u in us ==> Known(all, u)
    ensures var all' := all[h := tx];
      Acyclic(all', rank) && (forall g :: g in hs ==> g in all' && Related(all', addrs, all'[g])) &&
      (forall u :: u in us ==> Known(all', u)) && Sum(all', us) == Sum(all, us) &&
      (forall t: Tx :: Related(all, addrs, t) <==> Related(all', addrs, t)) &&
      (Related(all', addrs, tx) <==> Related(all, addrs, all[h]))
  {
    SumAlike(all, all[h := tx], us);
    RelatedAlike(all, all[h := tx], addrs);
    forall g | g in hs
      ensures Related(all[h := tx], addrs, all[h := tx][g])
    {
      RelatedByContents(all[h := tx], addrs, all[g], all[h := tx][g]);
    }
    RelatedByContents(all[h := tx], addrs, all[h], tx);
  }

  lemma RelatedAlike(all: map<Hash, Tx>, all': map<Hash, Tx>, addrs: set<Address>)
    requires all.Keys == all'.Keys && forall g :: g in all ==> all[g].outputs == all'[g].outputs
    ensures forall t: Tx :: Related(all, addrs, t) <==> Related(all', addrs, t)
  {
    forall t: Tx
      ensures Related(all, addrs, t) <==> Related(all', addrs, t)
    {
      assert forall i :: 0 <= i < |t.inputs| ==> (Known(all, t.inputs[i].point) <==> Known(all', t.inputs[i].point));
    }
  }

  lemma RelatedByContents(all: map<Hash, Tx>, addrs: set<Address>, t: Tx, t': Tx)
    requires t.inputs == t'.inputs && t.outputs == t'.outputs
    ensures Related(all, addrs, t) <==> Related(all, addrs, t')
  {
  }

  /** Forgetting what is not related to the wallet breaks no relation: a related transaction's witness pays a
      wallet address itself. */
  lemma Forgotten(all: map<Hash, Tx>, addrs: set<Address>, h: Hash)
    requires h in all && !Related(all, addrs, all[h])
    ensures forall t: Tx :: Related(all, addrs, t) <==> Related(all - {h}, addrs, t)
  {
    forall t: Tx
      ensures Related(all, addrs, t) <==> Related(all - {h}, addrs, t)
    {
      assert forall i :: 0 <= i < |t.inputs| ==>
        (Known(all - {h}, t.inputs[i].point) <==> Known(all, t.inputs[i].point) && t.inputs[i].point.hash != h);
    }
  }

  lemma OwnStay(all: map<Hash, Tx>, addrs: set<Address>, h: Hash, us: seq<Outpoint>)
    requires h in all && !Related(all, addrs, all[h])
    requires forall u :: u in us ==> Known(all, u) && all[u.hash].outputs[u.n].address in addrs
    ensures (forall u :: u in us ==> Known(all - {h}, u)) && Sum(all - {h}, us) == Sum(all, us)
  {
    assert forall u :: u in us ==> u.hash != h;
    SumAlike(all, all - {h}, us);
  }

  /** A transaction that still needs the update has not been touched. */
  lemma StillStale(all: map<Hash, Tx>, addrs: set<Address>, done: seq<Hash>, height: nat, timestamp: nat,
                   now: map<Hash, Tx>, h: Hash)
    requires Updated(all, addrs, done, height, timestamp, now) && Stale(now, h, height, timestamp)
    ensures h !in done && h in all && now[h] == all[h] && Stale(all, h, height, timestamp)
  {
    hide Related;
  }

  /** One that needed it and no longer does is among those dealt with. */
  lemma AlreadyUpdated(all: map<Hash, Tx>, addrs: set<Address>, done: seq<Hash>, height: nat, timestamp: nat,
                       now: map<Hash, Tx>, h: Hash)
    requires Updated(all, addrs, done, height, timestamp, now)
    ensures Stale(all, h, height, timestamp) && !Stale(now, h, height, timestamp) ==> h in done
    ensures Stale(now, h, height, timestamp) ==> Stale(all, h, height, timestamp)
    ensures Stale(all, h, height, timestamp) ==> h in all
  {
    hide Related;
  }

  lemma NothingUpdated(all: map<Hash, Tx>, addrs: set<Address>, height: nat, timestamp: nat)
    ensures Updated(all, addrs, [], height, timestamp, all)
  {
    hide Related;
  }

  lemma UpdatedStep(all: map<Hash, Tx>, addrs: set<Address>, done: seq<Hash>, height: nat, timestamp: nat, h: Hash,
                    was: map<Hash, Tx>, now: map<Hash, Tx>)
    requires Updated(all, addrs, done, height, timestamp, was)
    requires !Stale(was, h, height, timestamp) ==> now == was
    requires Stale(was, h, height, timestamp) && h in all ==>
      height != TX_UNCONFIRMED && !Related(all, addrs, all[h]) ==> now == was - {h}
    requires Stale(was, h, height, timestamp) && h in all ==>
      height == TX_UNCONFIRMED || Related(all, addrs, all[h]) ==>
        now == was[h := was[h].(height := height, timestamp := timestamp)]
    ensures Updated(all, addrs, done + [h], height, timestamp, now)
  {
    hide Related;
    if Stale(was, h, height, timestamp) {
      StillStale(all, addrs, done, height, timestamp, was, h);
    } else if h in was {
      assert was[h] == was[h].(height := height, timestamp := timestamp);
    }
  }

  lemma TakenOut(was: seq<Hash>, k: nat)
    requires k < |was| && Distinct(was)
    ensures var rest := was[..k] + was[k + 1..];
      Distinct(rest) && was[k] !in rest && forall g :: g in was <==> g == was[k] || g in rest
  {
    var rest := was[..k] + was[k + 1..];
    assert was == was[..k] + [was[k]] + was[k + 1..];
    assert forall j :: 0 <= j < |rest| ==> rest[j] == was[if j < k then j else j + 1];
  }

  /** Sorted but for the place of h. */
  predicate SortedBut(all: map<Hash, Tx>, hs: seq<Hash>, h: Hash)
    requires forall g :: g in hs ==> g in all
  {
    forall i, j :: 0 <= i < j < |hs| && hs[i] != h && hs[j] != h ==>
      hs[i] in hs && hs[j] in hs && all[hs[i]].height <= all[hs[j]].height
  }

  lemma SortedExcept(all: map<Hash, Tx>, hs: seq<Hash>, h: Hash, tx: Tx)
    requires (forall g :: g in hs ==> g in all) && Sorted(all, hs)
    ensures (forall g :: g in hs ==> g in all[h := tx]) && SortedBut(all[h := tx], hs, h)
  {
  }

  lemma SortedWithout(all: map<Hash, Tx>, was: seq<Hash>, k: nat)
    requires k < |was| && Distinct(was) && (forall g :: g in was ==> g in all) && SortedBut(all, was, was[k])
    ensures var rest := was[..k] + was[k + 1..];
      (forall g :: g in rest ==> g in all) && Sorted(all, rest)
  {
    var rest := was[..k] + was[k + 1..];
    forall j | 0 <= j < |rest|
      ensures rest[j] == was[if j < k then j else j + 1] && rest[j] in rest && rest[j] in was
    {
    }
    assert forall g :: g in rest ==> g in was;
    assert forall j :: 0 <= j < |rest| ==> rest[j] != was[k];
  }

  lemma SortedAlike(all: map<Hash, Tx>, all': map<Hash, Tx>, hs: seq<Hash>)
    requires forall g :: g in hs ==> g in all && g in all' && all[g] == all'[g]
    requires Sorted(all, hs)
    ensures Sorted(all', hs)
  {
  }

  lemma KnownIs(all: map<Hash, Tx>, o: Outpoint)
    ensures Known(all, o) <==> o.hash in all && o.n < |all[o.hash].outputs|
  {
  }

  lemma FoldBooks(env: Env, hs: seq<Hash>)
    requires (forall h :: h in hs ==> h in env.all) && Distinct(hs)
    ensures var s := Fold(env, hs);
      Distinct(s.utxos) && s.balance + s.sent == s.received &&
      (forall u :: u in s.utxos ==> Known(env.all, u) && env.all[u.hash].outputs[u.n].address in env.addrs) &&
      s.balance == Sum(env.all, s.utxos)
  {
    UtxosAreOwn(env, hs);
    BooksBalance(env, hs);
  }

  lemma SumOfNone(all: map<Hash, Tx>)
    ensures Sum(all, []) == 0
  {
  }

  lemma FoldStarts(env: Env)
    ensures Fold(env, []) == START
  {
  }

  lemma FoldListed(env: Env, hs: seq<Hash>)
    requires forall h :: h in hs ==> h in env.all
    ensures Listed(env, Fold(env, hs))
  {
  }

  /** A new transaction changes no amounts. */
  lemma Remembered(all: map<Hash, Tx>, h: Hash, tx: Tx, us: seq<Outpoint>)
    requires h !in all && forall u :: u in us ==> Known(all, u)
    ensures (forall u :: u in us ==> Known(all[h := tx], u)) && Sum(all[h := tx], us) == Sum(all, us)
  {
    SumAlike(all, all[h := tx], us);
  }

  lemma {:induction false} SumAlike(all: map<Hash, Tx>, all': map<Hash, Tx>, us: seq<Outpoint>)
    requires forall u :: u in us ==> Known(all, u) && u.hash in all' && all'[u.hash].outputs == all[u.hash].outputs
    ensures (forall u :: u in us ==> Known(all', u)) && Sum(all', us) == Sum(all, us)
  {
    if us != [] {
      assert us[|us| - 1] in us;
      SumAlike(all, all', us[..|us| - 1]);
    }
  }

  lemma ListGrows(all: map<Hash, Tx>, addrs: set<Address>, rank: Hash -> nat, hs: seq<Hash>, h: Hash, tx: Tx)
    requires h !in all && Acyclic(all, rank)
    requires forall i :: 0 <= i < |tx.inputs| ==> rank(tx.inputs[i].point.hash) < rank(h)
    requires (forall g :: g in hs ==> g in all && Related(all, addrs, all[g])) && Sorted(all, hs)
    ensures var all' := all[h := tx];
      Acyclic(all', rank) && (forall g :: g in hs ==> g in all' && Related(all', addrs, all'[g])) && Sorted(all', hs)
    ensures Related(all, addrs, tx) ==> Related(all[h := tx], addrs, tx)
  {
    RelatedKept(all, addrs, h, tx);
  }

  lemma RelatedKept(all: map<Hash, Tx>, addrs: set<Address>, h: Hash, tx: Tx)
    requires h !in all
    ensures forall t: Tx :: Related(all, addrs, t) ==> Related(all[h := tx], addrs, t)
  {
  }

  lemma MoreAddresses(all: map<Hash, Tx>, addrs: set<Address>, addrs': set<Address>)
    requires addrs <= addrs'
    ensures forall t: Tx :: Related(all, addrs, t) ==> Related(all, addrs', t)
  {
  }

  /** The unspent outputs when all but the first j of them have been looked at. */
  ghost predicate Dropping(all: map<Hash, Tx>, was: seq<Outpoint>, us: seq<Outpoint>, spent: set<Outpoint>, j: nat,
                           b: nat) {
    j <= |was| && j <= |us| && us[..j] == was[..j] &&
    (forall u :: u in us ==> Known(all, u)) && b == Sum(all, us) &&
    Unspent(was, spent) == Unspent(was[..j], spent) + us[j..]
  }

  lemma DroppingStarts(all: map<Hash, Tx>, was: seq<Outpoint>, spent: set<Outpoint>)
    requires forall u :: u in was ==> Known(all, u)
    ensures Dropping(all, was, was, spent, |was|, Sum(all, was))
  {
    assert was[..|was|] == was;
  }

  lemma DroppingStep(all: map<Hash, Tx>, was: seq<Outpoint>, us: seq<Outpoint>, spent: set<Outpoint>, j: nat, b: nat)
    requires j > 0 && Dropping(all, was, us, spent, j, b)
    ensures Known(all, us[j - 1])
    ensures us[j - 1] in spent ==>
      b >= Amount(all, us[j - 1]) &&
      Dropping(all, was, us[..j - 1] + us[j..], spent, j - 1, b - Amount(all, us[j - 1]))
    ensures us[j - 1] !in spent ==> Dropping(all, was, us, spent, j - 1, b)
  {
    hide Sum, Unspent;
    var u := us[j - 1];
    assert u == us[..j][j - 1] == was[j - 1];
    UnspentStep(was, spent, j);
    SumTakesOut(all, us, j - 1);
    assert us[..j - 1] == us[..j][..j - 1] == was[..j - 1];
    if u in spent {
      var rest := us[..j - 1] + us[j..];
      assert rest[..j - 1] == us[..j - 1] && rest[j - 1..] == us[j..];
    } else {
      assert us[j - 1..] == [u] + us[j..];
    }
  }

  lemma DroppingEnds(all: map<Hash, Tx>, was: seq<Outpoint>, us: seq<Outpoint>, spent: set<Outpoint>, b: nat)
    requires Dropping(all, was, us, spent, 0, b)
    ensures us == Unspent(was, spent) && (forall u :: u in us ==> Known(all, u)) && b == Sum(all, us)
  {
    assert us[0..] == us;
  }

  lemma UnspentStep(us: seq<Outpoint>, spent: set<Outpoint>, j: nat)
    requires 0 < j <= |us|
    ensures Unspent(us[..j], spent) == Unspent(us[..j - 1], spent) + if us[j - 1] in spent then [] else [us[j - 1]]
  {
    assert us[..j][..j - 1] == us[..j - 1];
  }

  lemma ConflictsAlike(s: State, t: State, tx: Tx)
    requires s.spent == t.spent && s.invalid == t.invalid
    ensures Conflicts(s, tx) <==> Conflicts(t, tx)
  {
  }

  /** Waiting depends on the books only through the pending transactions. */
  lemma WaitsAlike(env: Env, s: State, t: State, tx: Tx)
    requires s.pending == t.pending
    ensures Waits(env, s, tx) <==> Waits(env, t, tx)
  {
    assert forall i | 0 <= i < |tx.inputs| ::
      InputWaits(env, s, tx, tx.inputs[i]) <==> InputWaits(env, t, tx, tx.inputs[i]);
  }

  lemma {:induction false} OwnAlike(env: Env, env': Env, h: Hash, tx: Tx, n: nat)
    requires env.addrs == env'.addrs && n <= |tx.outputs|
    ensures OwnOutputs(env, h, tx, n) == OwnOutputs(env', h, tx, n)
  {
    if n > 0 {
      OwnAlike(env, env', h, tx, n - 1);
    }
  }

  /** While an insertion is under way: everything from i on is as high as h and has moved up by one. */
  ghost predicate Shifted(all: map<Hash, Tx>, was: seq<Hash>, now: seq<Hash>, i: nat, h: Hash) {
    h in all && (forall g :: g in was ==> g in all) && i <= |was| && |now| == |was| + 1 &&
    (forall k :: 0 <= k < i ==> now[k] == was[k]) &&
    (forall k :: i < k <= |was| ==> now[k] == was[k - 1]) &&
    forall k :: i <= k < |was| ==> was[k] in was && all[was[k]].height >= all[h].height
  }

  lemma ShiftStarts(all: map<Hash, Tx>, was: seq<Hash>, h: Hash)
    requires h in all && forall g :: g in was ==> g in all
    ensures Shifted(all, was, was + [h], |was|, h)
  {
  }

  lemma ShiftedPrefix(all: map<Hash, Tx>, was: seq<Hash>, now: seq<Hash>, i: nat, h: Hash)
    requires Shifted(all, was, now, i, h) && i > 0
    ensures i <= |was| && |now| == |was| + 1 && now[i - 1] == was[i - 1] && was[i - 1] in was && was[i - 1] in all
  {
  }

  lemma ShiftMore(all: map<Hash, Tx>, was: seq<Hash>, now: seq<Hash>, i: nat, h: Hash)
    requires Shifted(all, was, now, i, h) && i > 0
    requires now[i - 1] in all && all[now[i - 1]].height >= all[h].height
    ensures Shifted(all, was, now[i := now[i - 1]], i - 1, h)
  {
    assert was[i - 1] in was;
  }

  lemma FinishInsert(all: map<Hash, Tx>, was: seq<Hash>, now: seq<Hash>, i: nat, h: Hash)
    requires Shifted(all, was, now, i, h) && h !in was && Distinct(was) && Sorted(all, was)
    requires i > 0 ==> was[i - 1] in was && all[was[i - 1]].height <= all[h].height
    ensures i <= |was| && now[i := h] == was[..i] + [h] + was[i..]
    ensures var r := now[i := h]; (forall g :: g in r <==> g == h || g in was) && Distinct(r) && Sorted(all, r)
  {
    hide Distinct, Sorted;
    Inserted(was, now[i := h], i, h);
    SortedInsert(all, was, i, h);
  }

  lemma Inserted(was: seq<Hash>, now: seq<Hash>, i: nat, h: Hash)
    requires i <= |was| && |now| == |was| + 1 && now[i] == h
    requires forall k :: 0 <= k < i ==> now[k] == was[k]
    requires forall k :: i < k <= |was| ==> now[k] == was[k - 1]
    ensures now == was[..i] + [h] + was[i..]
  {
  }

  lemma SortedInsert(all: map<Hash, Tx>, was: seq<Hash>, i: nat, h: Hash)
    requires h in all && h !in was && Distinct(was) && (forall g :: g in was ==> g in all) && Sorted(all, was)
    requires i <= |was|
    requires i > 0 ==> was[i - 1] in was && all[was[i - 1]].height <= all[h].height
    requires forall k :: i <= k < |was| ==> was[k] in was && all[was[k]].height >= all[h].height
    ensures var now := was[..i] + [h] + was[i..];
      (forall g :: g in now <==> g == h || g in was) && Distinct(now) && Sorted(all, now)
  {
    InsertMembers(was, i, h);
    InsertDistinct(was, i, h);
    var now := was[..i] + [h] + was[i..];
    forall j, k | 0 <= j < k < |now|
      ensures now[j] in now && now[k] in now && all[now[j]].height <= all[now[k]].height
    {
      InsertedAt(was, i, h, j);
      InsertedAt(was, i, h, k);
      HeightsAround(all, was, i, h, j, k);
    }
  }

  lemma InsertMembers(was: seq<Hash>, i: nat, h: Hash)
    requires i <= |was|
    ensures forall g :: g in was[..i] + [h] + was[i..] <==> g == h || g in was
  {
    assert was == was[..i] + was[i..];
  }

  lemma InsertDistinct(was: seq<Hash>, i: nat, h: Hash)
    requires i <= |was| && h !in was && Distinct(was)
    ensures Distinct(was[..i] + [h] + was[i..])
  {
    assert forall k :: 0 <= k < |was| ==> was[k] in was;
    forall j, k | 0 <= j < k < |was| + 1
      ensures (was[..i] + [h] + was[i..])[j] != (was[..i] + [h] + was[i..])[k]
    {
      InsertedAt(was, i, h, j);
      InsertedAt(was, i, h, k);
    }
  }

  lemma InsertedAt(was: seq<Hash>, i: nat, h: Hash, k: nat)
    requires i <= |was| && k <= |was|
    ensures (was[..i] + [h] + was[i..])[k] == if k < i then was[k] else if k == i then h else was[k - 1]
  {
  }

  lemma HeightsAround(all: map<Hash, Tx>, was: seq<Hash>, i: nat, h: Hash, j: nat, k: nat)
    requires h in all && (forall g :: g in was ==> g in all) && Sorted(all, was)
    requires i <= |was| && j < k <= |was|
    requires i > 0 ==> was[i - 1] in was && all[was[i - 1]].height <= all[h].height
    requires forall k :: i <= k < |was| ==> was[k] in was && all[was[k]].height >= all[h].height
    ensures var a := if j < i then was[j] else if j == i then h else was[j - 1];
      var b := if k < i then was[k] else if k == i then h else was[k - 1];
      a in all && b in all && all[a].height <= all[b].height
  {
    assert forall k :: 0 <= k < |was| ==> was[k] in was;
    if j < i <= k {
      assert j < i - 1 ==> all[was[j]].height <= all[was[i - 1]].height;
      assert k > i ==> all[was[k - 1]].height >= all[h].height;
    }
  }
}
