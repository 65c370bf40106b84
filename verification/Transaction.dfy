/** The transaction format: writing, measuring and reading, with and without room. */
module Transactions {
  import opened Words
  import opened VarInts
  import opened Options

  const TX_INPUT_SIZE: nat := 148

  /** A pointer to bytes that may be null. */
  datatype Maybe = Null | Bytes(bytes: seq<Byte>)

  datatype TxIn = TxIn(hash: seq<Byte>, index: Word, amount: nat, script: Maybe, signature: Maybe, sequence: Word)
  datatype TxOut = TxOut(amount: nat, script: seq<Byte>)
  datatype Tx = Tx(version: Word, inputs: seq<TxIn>, outputs: seq<TxOut>, lockTime: Word)

  const LIMIT: nat := 0x1_0000_0000_0000_0000

  predicate Fits(tx: Tx) {
    |tx.inputs| < LIMIT && |tx.outputs| < LIMIT &&
    (forall i :: 0 <= i < |tx.inputs| ==> FitsIn(tx.inputs[i])) &&
    (forall i :: 0 <= i < |tx.outputs| ==> FitsOut(tx.outputs[i]))
  }

  predicate FitsIn(i: TxIn) {
    |i.hash| == 32 && i.amount < LIMIT && |Content(i)| < LIMIT
  }

  predicate FitsOut(o: TxOut) {
    o.amount < LIMIT && |o.script| < LIMIT
  }

  // ----- The bytes -----

  function BytesOf(m: Maybe): seq<Byte> {
    if m.Null? then [] else m.bytes
  }

  /** An input that is not signed is written with the script it spends in place of the signature. */
  function Content(i: TxIn): seq<Byte> {
    if i.signature.Null? then BytesOf(i.script) else i.signature.bytes
  }

  /** And with its amount, unless that is 0. */
  function AmountBytes(i: TxIn): seq<Byte> {
    if i.signature.Null? && i.amount != 0 then ToLE(i.amount, 8) else []
  }

  function InputBytes(i: TxIn): seq<Byte>
    requires FitsIn(i)
  {
    i.hash + ToLE(i.index, 4) + VarInt(|Content(i)|) + Content(i) + AmountBytes(i) + ToLE(i.sequence, 4)
  }

  function OutputBytes(o: TxOut): seq<Byte>
    requires FitsOut(o)
  {
    ToLE(o.amount, 8) + VarInt(|o.script|) + o.script
  }

  function InputsBytes(inputs: seq<TxIn>): seq<Byte>
    requires forall i :: 0 <= i < |inputs| ==> FitsIn(inputs[i])
  {
    if inputs == [] then [] else InputBytes(inputs[0]) + InputsBytes(inputs[1..])
  }

  function OutputsBytes(outputs: seq<TxOut>): seq<Byte>
    requires forall i :: 0 <= i < |outputs| ==> FitsOut(outputs[i])
  {
    if outputs == [] then [] else OutputBytes(outputs[0]) + OutputsBytes(outputs[1..])
  }

  function TxBytes(tx: Tx): seq<Byte>
    requires Fits(tx)
  {
    ToLE(tx.version, 4) + VarInt(|tx.inputs|) + InputsBytes(tx.inputs) +
    VarInt(|tx.outputs|) + OutputsBytes(tx.outputs) + ToLE(tx.lockTime, 4)
  }

  // ----- Reading -----

  /** A little-endian number, 0 when it is not all there. */
  function ReadLE(buf: seq<Byte>, off: nat, n: nat): nat {
    if off + n <= |buf| then LE(buf[off..off + n]) else 0
  }

  datatype Read = Read(value: nat, len: nat)

  /** The header decides the length even when the number behind it is cut off. */
  function ReadVarInt(buf: seq<Byte>, off: nat): Read {
    var h := if off + 1 <= |buf| then buf[off] else 0;
    if h == VAR_INT16_HEADER then Read(ReadLE(buf, off + 1, 2), 3)
    else if h == VAR_INT32_HEADER then Read(ReadLE(buf, off + 1, 4), 5)
    else if h == VAR_INT64_HEADER then Read(ReadLE(buf, off + 1, 8), 9)
    else Read(h, 1)
  }

  function ReadHash(buf: seq<Byte>, off: nat): (h: seq<Byte>)
    ensures |h| == 32
  {
    if off + 32 <= |buf| then buf[off..off + 32] else ToLE(0, 32)
  }

  function ReadWord(buf: seq<Byte>, off: nat): Word {
    WordRead(buf, off);
    ReadLE(buf, off, 4)
  }

  lemma WordRead(buf: seq<Byte>, off: nat)
    ensures ReadLE(buf, off, 4) < 0x1_0000_0000
  {
    if off + 4 <= |buf| {
      LEBelow(buf[off..off + 4]);
      assert Pow256(4) == 0x1_0000_0000;
    }
  }

  /** One input: bytes that are a recognised script are one, with an amount behind; others are a signature. */
  function ReadInput(buf: seq<Byte>, off: nat, recognised: seq<Byte> -> bool): (r: (TxIn, nat))
    ensures r.1 >= off + 41
  {
    var s := ReadVarInt(buf, off + 36);
    var at := off + 36 + s.len;
    var hash, index := ReadHash(buf, off), ReadWord(buf, off + 32);
    if at + s.value <= |buf| && recognised(buf[at..at + s.value]) then
      (TxIn(hash, index, ReadLE(buf, at + s.value, 8), Bytes(buf[at..at + s.value]), Null,
            ReadWord(buf, at + s.value + 8)), at + s.value + 12)
    else
      var signature := if at + s.value <= |buf| then Bytes(buf[at..at + s.value]) else Null;
      (TxIn(hash, index, 0, Null, signature, ReadWord(buf, at + s.value)), at + s.value + 4)
  }

  function ReadInputs(buf: seq<Byte>, off: nat, count: nat, recognised: seq<Byte> -> bool): (r: (seq<TxIn>, nat))
    ensures r.1 >= off
    decreases count
  {
    if count == 0 || off > |buf| then ([], off)
    else
      var (input, next) := ReadInput(buf, off, recognised);
      var (rest, end) := ReadInputs(buf, next, count - 1, recognised);
      ([input] + rest, end)
  }

  function ReadOutput(buf: seq<Byte>, off: nat): (r: (TxOut, nat))
    ensures r.1 >= off + 9
  {
    var s := ReadVarInt(buf, off + 8);
    var at := off + 8 + s.len;
    (TxOut(ReadLE(buf, off, 8), if at + s.value <= |buf| then buf[at..at + s.value] else []), at + s.value)
  }

  function ReadOutputs(buf: seq<Byte>, off: nat, count: nat): (r: (seq<TxOut>, nat))
    ensures r.1 >= off
    decreases count
  {
    if count == 0 || off > |buf| then ([], off)
    else
      var (output, next) := ReadOutput(buf, off);
      var (rest, end) := ReadOutputs(buf, next, count - 1);
      ([output] + rest, end)
  }

  /** What parsing comes to; Overread when the code would read outside the buffer. */
  datatype Parsed = Nothing | Overread | Parsed(tx: Tx)

  /** Where the inputs end, and the end of the whole, in offsets that do not wrap. */
  function EndOfInputs(buf: seq<Byte>, recognised: seq<Byte> -> bool): nat {
    var n := ReadVarInt(buf, 4);
    ReadInputs(buf, 4 + n.len, n.value, recognised).1
  }

  function EndOfTx(buf: seq<Byte>, recognised: seq<Byte> -> bool): nat {
    var o1 := EndOfInputs(buf, recognised);
    var m := ReadVarInt(buf, o1);
    ReadOutputs(buf, o1 + m.len, m.value).1 + 4
  }

  /** Parsing with such offsets: no transaction without inputs, and none that ends beyond the buffer. */
  function ParseExact(buf: seq<Byte>, recognised: seq<Byte> -> bool): Parsed {
    var n := ReadVarInt(buf, 4);
    var (inputs, o1) := ReadInputs(buf, 4 + n.len, n.value, recognised);
    var m := ReadVarInt(buf, o1);
    var (outputs, o2) := ReadOutputs(buf, o1 + m.len, m.value);
    if n.value == 0 || o2 + 4 > |buf| then Nothing
    else Parsed(Tx(ReadWord(buf, 0), inputs, outputs, ReadWord(buf, o2)))
  }

  // ----- Offsets of 64 bits -----

  /** The test that a script of s bytes ends inside the buffer, as 64-bit arithmetic makes it. */
  predicate EndsInside(off: nat, s: nat, len: nat) {
    (off + s) % LIMIT <= len
  }

  /** It is the intended test exactly when the sum does not wrap, which a script length read from the buffer
      can make it do. */
  lemma EndsInsideIff(off: nat, s: nat, len: nat)
    requires off <= len < LIMIT && s < LIMIT
    ensures (EndsInside(off, s, len) <==> off + s <= len) <==> off + s < LIMIT
  {
    if off + s >= LIMIT {
      assert (off + s) % LIMIT == off + s - LIMIT;
    }
  }

  /** The test passes, and what it guards reads outside the buffer. */
  predicate Overreads(off: nat, n: nat, len: nat) {
    EndsInside(off, n, len) && off + n > len
  }

  /** No object in memory is larger than half the address space. */
  predicate Addressable(buf: seq<Byte>) {
    |buf| < LIMIT / 2
  }

  /** One input as the code reads it. Only its script length, and what follows, can make an offset wrap. */
  function NextInput(buf: seq<Byte>, off: nat, recognised: seq<Byte> -> bool): Option<(TxIn, nat)> {
    var s := ReadVarInt(buf, off + 36);
    var at := off + 36 + s.len;
    var end := (at + s.value) % LIMIT;
    var hash, index := ReadHash(buf, off), ReadWord(buf, off + 32);
    if Overreads(at, s.value, |buf|) then None
    else if at + s.value <= |buf| && recognised(buf[at..at + s.value]) then
      Some((TxIn(hash, index, ReadLE(buf, end, 8), Bytes(buf[at..at + s.value]), Null, ReadWord(buf, end + 8)),
            end + 12))
    else if Overreads(end, 4, |buf|) then None
    else
      var signature := if at + s.value <= |buf| then Bytes(buf[at..at + s.value]) else Null;
      Some((TxIn(hash, index, 0, Null, signature, ReadWord(buf, end)), (end + 4) % LIMIT))
  }

  function NextInputs(buf: seq<Byte>, off: nat, count: nat, recognised: seq<Byte> -> bool): Option<(seq<TxIn>, nat)>
    decreases count
  {
    if count == 0 || off > |buf| then Some(([], off))
    else
      match NextInput(buf, off, recognised)
      case None => None
      case Some((input, next)) =>
        match NextInputs(buf, next, count - 1, recognised)
        case None => None
        case Some((rest, end)) => Some(([input] + rest, end))
  }

  function NextOutput(buf: seq<Byte>, off: nat): Option<(TxOut, nat)> {
    var s := ReadVarInt(buf, off + 8);
    var at := off + 8 + s.len;
    if Overreads(at, s.value, |buf|) then None
    else
      Some((TxOut(ReadLE(buf, off, 8), if at + s.value <= |buf| then buf[at..at + s.value] else []),
            (at + s.value) % LIMIT))
  }

  function NextOutputs(buf: seq<Byte>, off: nat, count: nat): Option<(seq<TxOut>, nat)>
    decreases count
  {
    if count == 0 || off > |buf| then Some(([], off))
    else
      match NextOutput(buf, off)
      case None => None
      case Some((output, next)) =>
        match NextOutputs(buf, next, count - 1)
        case None => None
        case Some((rest, end)) => Some(([output] + rest, end))
  }

  /** Entries that were allocated and not read are zero. */
  const ZERO_IN := TxIn(ToLE(0, 32), 0, 0, Null, Null, 0)
  const ZERO_OUT := TxOut(0, [])

  function Filled<T>(read: seq<T>, n: nat, zero: T): seq<T> {
    if |read| < n then read + seq(n - |read|, _ => zero) else read
  }

  /** BRTransactionParse. */
  function ParseTx(buf: seq<Byte>, recognised: seq<Byte> -> bool): Parsed {
    var n := ReadVarInt(buf, 4);
    match NextInputs(buf, 4 + n.len, n.value, recognised)
    case None => Overread
    case Some((inputs, o1)) =>
      var m := ReadVarInt(buf, o1);
      match NextOutputs(buf, (o1 + m.len) % LIMIT, m.value)
      case None => Overread
      case Some((outputs, o2)) =>
        if Overreads(o2, 4, |buf|) then Overread
        else if n.value == 0 || (o2 + 4) % LIMIT > |buf| then Nothing
        else
          Parsed(Tx(ReadWord(buf, 0), Filled(inputs, n.value, ZERO_IN), Filled(outputs, m.value, ZERO_OUT),
                    ReadWord(buf, o2)))
  }

  /** An input is read as with exact offsets exactly when its end does not wrap, and otherwise outside the buffer. */
  lemma NextInputIs(buf: seq<Byte>, off: nat, recognised: seq<Byte> -> bool)
    requires Addressable(buf) && off <= |buf|
    ensures var r := ReadInput(buf, off, recognised);
      NextInput(buf, off, recognised) == if r.1 < LIMIT then Some(r) else None
  {
    hide ReadVarInt, ReadLE;
    ReadVarIntSize(buf, off + 36);
    LongInside(buf, off + 36);
    var s := ReadVarInt(buf, off + 36);
    var at := off + 36 + s.len;
    if at + s.value >= LIMIT {
      Wrapped(at + s.value);
    } else if at + s.value + 4 >= LIMIT {
      Wrapped(at + s.value + 4);
    }
  }

  lemma Wrapped(x: nat)
    requires LIMIT <= x < 2 * LIMIT
    ensures x % LIMIT == x - LIMIT
  {
  }

  /** A number is read only where all of its bytes are. */
  lemma LongInside(buf: seq<Byte>, off: nat)
    ensures var r := ReadVarInt(buf, off); r.len <= 9 && (r.value >= 0x100 ==> off + r.len <= |buf|)
  {
  }

  lemma {:induction false} NextInputsIs(buf: seq<Byte>, off: nat, count: nat, recognised: seq<Byte> -> bool)
    requires Addressable(buf) && off < LIMIT
    ensures var r := ReadInputs(buf, off, count, recognised);
      NextInputs(buf, off, count, recognised) == if r.1 < LIMIT then Some(r) else None
    decreases count
  {
    hide ReadInput, NextInput;
    if count > 0 && off <= |buf| {
      var (input, next) := ReadInput(buf, off, recognised);
      NextInputIs(buf, off, recognised);
      ReadInputsEnd(buf, next, count - 1, recognised);
      if next < LIMIT {
        NextInputsIs(buf, next, count - 1, recognised);
      }
    }
  }

  lemma NextOutputIs(buf: seq<Byte>, off: nat)
    requires Addressable(buf) && off <= |buf|
    ensures var r := ReadOutput(buf, off); NextOutput(buf, off) == if r.1 < LIMIT then Some(r) else None
  {
    hide ReadVarInt, ReadLE;
    ReadVarIntSize(buf, off + 8);
    LongInside(buf, off + 8);
    var s := ReadVarInt(buf, off + 8);
    var at := off + 8 + s.len;
    if at + s.value >= LIMIT {
      Wrapped(at + s.value);
    }
  }

  lemma {:induction false} NextOutputsIs(buf: seq<Byte>, off: nat, count: nat)
    requires Addressable(buf) && off < LIMIT
    ensures var r := ReadOutputs(buf, off, count); NextOutputs(buf, off, count) == if r.1 < LIMIT then Some(r) else None
    decreases count
  {
    hide ReadOutput, NextOutput;
    if count > 0 && off <= |buf| {
      var (output, next) := ReadOutput(buf, off);
      NextOutputIs(buf, off);
      ReadOutputsEnd(buf, next, count - 1);
      if next < LIMIT {
        NextOutputsIs(buf, next, count - 1);
      }
    }
  }

  /** Behind the end there is nothing to count, so nothing is read. */
  lemma PastTheEnd(buf: seq<Byte>, o1: nat, off: nat)
    requires o1 > |buf|
    ensures ReadVarInt(buf, o1) == Read(0, 1)
    ensures ReadOutputs(buf, off, 0) == ([], off) && NextOutputs(buf, off, 0) == Some(([], off))
  {
  }

  // ----- Reading what was written -----

  /** Bytes at an offset. */
  predicate At(buf: seq<Byte>, off: nat, bytes: seq<Byte>) {
    off + |bytes| <= |buf| && buf[off..off + |bytes|] == bytes
  }

  lemma AtSplit(buf: seq<Byte>, off: nat, a: seq<Byte>, b: seq<Byte>)
    requires At(buf, off, a + b)
    ensures At(buf, off, a) && At(buf, off + |a|, b)
  {
    var whole := buf[off..off + |a + b|];
    assert whole[..|a|] == a && whole[|a|..] == b;
    assert buf[off..off + |a|] == whole[..|a|];
    assert buf[off + |a|..off + |a| + |b|] == whole[|a|..];
  }

  lemma ReadLEAt(buf: seq<Byte>, off: nat, v: nat, n: nat)
    requires At(buf, off, ToLE(v, n)) && v < Pow256(n)
    ensures ReadLE(buf, off, n) == v
  {
    LEOfToLE(v, n);
  }

  lemma Powers()
    ensures Pow256(2) == 0x1_0000 && Pow256(4) == 0x1_0000_0000 && Pow256(8) == LIMIT
  {
    assert Pow256(4) == 0x1_0000_0000;
  }

  lemma ReadVarIntAt(buf: seq<Byte>, off: nat, v: nat)
    requires v < LIMIT && At(buf, off, VarInt(v))
    ensures ReadVarInt(buf, off) == Read(v, VarIntSize(v))
  {
    hide ToLE;
    var b := VarInt(v);
    assert buf[off] == buf[off..off + |b|][0] == b[0];
    Powers();
    if VAR_INT16_HEADER <= v {
      var n := if v <= 0xffff then 2 else if v <= 0xffff_ffff then 4 else 8;
      AtSplit(buf, off, [b[0]], ToLE(v, n));
      ReadLEAt(buf, off + 1, v, n);
    }
  }

  /** What reading can restore: a signature that is not taken for a script and no amount or script beside it,
      or a recognised script with an amount. */
  predicate Faithful(i: TxIn, recognised: seq<Byte> -> bool) {
    if i.signature.Null? then i.script.Bytes? && recognised(i.script.bytes) && i.amount != 0
    else !recognised(i.signature.bytes) && i.script.Null? && i.amount == 0
  }

  lemma ReadInputAt(buf: seq<Byte>, off: nat, i: TxIn, recognised: seq<Byte> -> bool)
    requires FitsIn(i) && Faithful(i, recognised) && At(buf, off, InputBytes(i))
    ensures ReadInput(buf, off, recognised) == (i, off + |InputBytes(i)|)
  {
    hide ToLE, VarInt, ReadVarInt, ReadLE;
    var c := Content(i);
    var head := i.hash + ToLE(i.index, 4);
    var o := off + 36 + VarIntSize(|c|);
    AtSplit(buf, off, head + VarInt(|c|) + c + AmountBytes(i), ToLE(i.sequence, 4));
    AtSplit(buf, off, head + VarInt(|c|) + c, AmountBytes(i));
    AtSplit(buf, off, head + VarInt(|c|), c);
    AtSplit(buf, off, head, VarInt(|c|));
    AtSplit(buf, off, i.hash, ToLE(i.index, 4));
    ReadVarIntAt(buf, off + 36, |c|);
    Powers();
    ReadLEAt(buf, off + 32, i.index, 4);
    ReadLEAt(buf, off + |InputBytes(i)| - 4, i.sequence, 4);
    if i.signature.Null? {
      ReadLEAt(buf, o + |c|, i.amount, 8);
    }
  }

  lemma AtStart(buf: seq<Byte>, off: nat, bytes: seq<Byte>)
    requires At(buf, off, bytes)
    ensures off <= |buf|
  {
  }

  lemma {:induction false} ReadInputsAt(buf: seq<Byte>, off: nat, inputs: seq<TxIn>, recognised: seq<Byte> -> bool)
    requires forall k :: 0 <= k < |inputs| ==> FitsIn(inputs[k]) && Faithful(inputs[k], recognised)
    requires At(buf, off, InputsBytes(inputs))
    ensures ReadInputs(buf, off, |inputs|, recognised) == (inputs, off + |InputsBytes(inputs)|)
    decreases |inputs|
  {
    hide FitsIn, Faithful, InputBytes, ReadInput, At;
    if inputs == [] {
      assert ReadInputs(buf, off, |inputs|, recognised) == (inputs, off) && |InputsBytes(inputs)| == 0;
    } else {
      AtStart(buf, off, InputsBytes(inputs));
      AtSplit(buf, off, InputBytes(inputs[0]), InputsBytes(inputs[1..]));
      ReadInputAt(buf, off, inputs[0], recognised);
      ReadInputsAt(buf, off + |InputBytes(inputs[0])|, inputs[1..], recognised);
      assert inputs == [inputs[0]] + inputs[1..];
      assert |InputsBytes(inputs)| == |InputBytes(inputs[0])| + |InputsBytes(inputs[1..])|;
    }
  }

  lemma ReadOutputAt(buf: seq<Byte>, off: nat, o: TxOut)
    requires FitsOut(o) && At(buf, off, OutputBytes(o))
    ensures ReadOutput(buf, off) == (o, off + |OutputBytes(o)|)
  {
    hide ToLE, VarInt, ReadVarInt, ReadLE;
    AtSplit(buf, off, ToLE(o.amount, 8) + VarInt(|o.script|), o.script);
    AtSplit(buf, off, ToLE(o.amount, 8), VarInt(|o.script|));
    ReadVarIntAt(buf, off + 8, |o.script|);
    Powers();
    ReadLEAt(buf, off, o.amount, 8);
  }

  lemma {:induction false} ReadOutputsAt(buf: seq<Byte>, off: nat, outputs: seq<TxOut>)
    requires forall k :: 0 <= k < |outputs| ==> FitsOut(outputs[k])
    requires At(buf, off, OutputsBytes(outputs))
    ensures ReadOutputs(buf, off, |outputs|) == (outputs, off + |OutputsBytes(outputs)|)
    decreases |outputs|
  {
    hide FitsOut, OutputBytes, ReadOutput, At;
    if outputs == [] {
      assert ReadOutputs(buf, off, |outputs|) == (outputs, off) && |OutputsBytes(outputs)| == 0;
    } else {
      AtStart(buf, off, OutputsBytes(outputs));
      AtSplit(buf, off, OutputBytes(outputs[0]), OutputsBytes(outputs[1..]));
      ReadOutputAt(buf, off, outputs[0]);
      ReadOutputsAt(buf, off + |OutputBytes(outputs[0])|, outputs[1..]);
      assert outputs == [outputs[0]] + outputs[1..];
      assert |OutputsBytes(outputs)| == |OutputBytes(outputs[0])| + |OutputsBytes(outputs[1..])|;
    }
  }

  lemma ExactSerialized(tx: Tx, recognised: seq<Byte> -> bool, rest: seq<Byte>)
    requires Fits(tx) && |tx.inputs| > 0 && forall k :: 0 <= k < |tx.inputs| ==> Faithful(tx.inputs[k], recognised)
    ensures ParseExact(TxBytes(tx) + rest, recognised) == Parsed(tx)
  {
    hide ToLE, VarInt, ReadVarInt, ReadLE, InputsBytes;
    hide OutputsBytes, ReadInputs, ReadOutputs, FitsIn, FitsOut, Faithful;
    var buf := TxBytes(tx) + rest;
    var version, n, ins := ToLE(tx.version, 4), VarInt(|tx.inputs|), InputsBytes(tx.inputs);
    var m, outs, lock := VarInt(|tx.outputs|), OutputsBytes(tx.outputs), ToLE(tx.lockTime, 4);
    assert At(buf, 0, TxBytes(tx));
    AtSplit(buf, 0, version + n + ins + m + outs, lock);
    AtSplit(buf, 0, version + n + ins + m, outs);
    AtSplit(buf, 0, version + n + ins, m);
    AtSplit(buf, 0, version + n, ins);
    AtSplit(buf, 0, version, n);
    Powers();
    ReadLEAt(buf, 0, tx.version, 4);
    ReadVarIntAt(buf, 4, |tx.inputs|);
    ReadInputsAt(buf, 4 + |n|, tx.inputs, recognised);
    var o1 := 4 + |n| + |ins|;
    ReadVarIntAt(buf, o1, |tx.outputs|);
    ReadOutputsAt(buf, o1 + |m|, tx.outputs);
    ReadLEAt(buf, o1 + |m| + |outs|, tx.lockTime, 4);
  }

  // ----- Where everything stands -----

  lemma SliceOf(a: seq<Byte>, b: seq<Byte>, c: seq<Byte>)
    ensures (a + b + c)[|a|..|a| + |b|] == b
  {
  }

  /** An input: the hash it spends from, 4 bytes of index, a length and so many bytes, which are the signature or,
      without one, the script, 8 bytes of amount for an input without signature whose amount is not 0, 4 bytes of
      sequence. */
  lemma InputLayout(i: TxIn)
    requires FitsIn(i)
    ensures var b := InputBytes(i);
      var c := match i.signature
               case Bytes(signature) => signature
               case Null => match i.script case Bytes(script) => script case Null => [];
      var at := 36 + VarIntSize(|c|);
      var amountLen := if i.signature == Null && i.amount != 0 then 8 else 0;
      |b| == at + |c| + amountLen + 4 && b[..32] == i.hash && LE(b[32..36]) == i.index &&
      b[36..at] == VarInt(|c|) && b[at..at + |c|] == c && LE(b[|b| - 4..]) == i.sequence &&
      (amountLen == 8 ==> LE(b[at + |c|..at + |c| + 8]) == i.amount)
  {
    hide ToLE, VarInt, LE;
    var b, c := InputBytes(i), Content(i);
    var index, size, amount, sequence := ToLE(i.index, 4), VarInt(|c|), AmountBytes(i), ToLE(i.sequence, 4);
    Powers();
    LEOfToLE(i.index, 4);
    LEOfToLE(i.sequence, 4);
    LEOfToLE(i.amount, 8);
    assert b[..32] == i.hash;
    assert b == i.hash + index + (size + c + amount + sequence);
    SliceOf(i.hash, index, size + c + amount + sequence);
    assert b == (i.hash + index) + size + (c + amount + sequence);
    SliceOf(i.hash + index, size, c + amount + sequence);
    assert b == (i.hash + index + size) + c + (amount + sequence);
    SliceOf(i.hash + index + size, c, amount + sequence);
    SliceOf(i.hash + index + size + c, amount, sequence);
    assert b[|b| - 4..] == sequence;
  }

  /** An output: 8 bytes of amount, a length and so many bytes of script. */
  lemma OutputLayout(o: TxOut)
    requires FitsOut(o)
    ensures var b := OutputBytes(o);
      var at := 8 + VarIntSize(|o.script|);
      |b| == at + |o.script| && LE(b[..8]) == o.amount && b[8..at] == VarInt(|o.script|) && b[at..] == o.script
  {
    hide ToLE, VarInt, LE;
    var b := OutputBytes(o);
    Powers();
    LEOfToLE(o.amount, 8);
    assert b[..8] == ToLE(o.amount, 8);
    SliceOf(ToLE(o.amount, 8), VarInt(|o.script|), o.script);
  }

  /** A transaction: 4 bytes of version, the number of inputs and the inputs in order, the number of outputs and the
      outputs in order, 4 bytes of lock time. */
  lemma TxLayout(tx: Tx)
    requires Fits(tx)
    ensures var b, n, m := TxBytes(tx), |tx.inputs|, |tx.outputs|;
      var ins := 4 + VarIntSize(n);
      var outs := ins + |InputsBytes(tx.inputs)| + VarIntSize(m);
      |b| == outs + |OutputsBytes(tx.outputs)| + 4 && LE(b[..4]) == tx.version && LE(b[|b| - 4..]) == tx.lockTime &&
      b[4..ins] == VarInt(n) && b[outs - VarIntSize(m)..outs] == VarInt(m) &&
      b[ins..outs - VarIntSize(m)] == InputsBytes(tx.inputs) && b[outs..|b| - 4] == OutputsBytes(tx.outputs)
  {
    hide ToLE, VarInt, LE, InputsBytes, OutputsBytes;
    var b, version, lock := TxBytes(tx), ToLE(tx.version, 4), ToLE(tx.lockTime, 4);
    var n, ins, m, outs := VarInt(|tx.inputs|), InputsBytes(tx.inputs), VarInt(|tx.outputs|), OutputsBytes(tx.outputs);
    Powers();
    LEOfToLE(tx.version, 4);
    LEOfToLE(tx.lockTime, 4);
    assert b[..4] == version;
    assert b == version + n + (ins + m + outs + lock);
    SliceOf(version, n, ins + m + outs + lock);
    assert b == (version + n) + ins + (m + outs + lock);
    SliceOf(version + n, ins, m + outs + lock);
    assert b == (version + n + ins) + m + (outs + lock);
    SliceOf(version + n + ins, m, outs + lock);
    SliceOf(version + n + ins + m, outs, lock);
    assert b[|b| - 4..] == lock;
  }

  /** Each input stands behind the ones before it. */
  lemma {:induction false} InputsInOrder(inputs: seq<TxIn>, k: nat)
    requires k < |inputs| && forall j :: 0 <= j < |inputs| ==> FitsIn(inputs[j])
    ensures At(InputsBytes(inputs), |InputsBytes(inputs[..k])|, InputBytes(inputs[k]))
  {
    hide InputBytes, FitsIn;
    if k == 0 {
      assert InputsBytes(inputs) == InputBytes(inputs[0]) + InputsBytes(inputs[1..]);
    } else {
      InputsInOrder(inputs[1..], k - 1);
      assert inputs[..k][1..] == inputs[1..][..k - 1] && inputs[..k][0] == inputs[0];
      AtBehind(InputBytes(inputs[0]), InputsBytes(inputs[1..]), |InputsBytes(inputs[1..][..k - 1])|,
               InputBytes(inputs[k]));
    }
  }

  lemma AtBehind(a: seq<Byte>, b: seq<Byte>, off: nat, bytes: seq<Byte>)
    requires At(b, off, bytes)
    ensures At(a + b, |a| + off, bytes)
  {
    assert (a + b)[|a| + off..|a| + off + |bytes|] == b[off..off + |bytes|];
  }

  lemma {:induction false} OutputsInOrder(outputs: seq<TxOut>, k: nat)
    requires k < |outputs| && forall j :: 0 <= j < |outputs| ==> FitsOut(outputs[j])
    ensures At(OutputsBytes(outputs), |OutputsBytes(outputs[..k])|, OutputBytes(outputs[k]))
  {
    hide OutputBytes, FitsOut;
    if k == 0 {
      assert OutputsBytes(outputs) == OutputBytes(outputs[0]) + OutputsBytes(outputs[1..]);
    } else {
      OutputsInOrder(outputs[1..], k - 1);
      assert outputs[..k][1..] == outputs[1..][..k - 1] && outputs[..k][0] == outputs[0];
      AtBehind(OutputBytes(outputs[0]), OutputsBytes(outputs[1..]), |OutputsBytes(outputs[1..][..k - 1])|,
               OutputBytes(outputs[k]));
    }
  }

  /** What an input is read from, when it ends inside the buffer. */
  lemma ReadInputLayout(buf: seq<Byte>, off: nat, recognised: seq<Byte> -> bool)
    requires ReadInput(buf, off, recognised).1 <= |buf|
    ensures var (i, end) := ReadInput(buf, off, recognised);
      end >= off + 41 && i.hash == buf[off..off + 32] && i.index == LE(buf[off + 32..off + 36]) &&
      i.sequence == LE(buf[end - 4..end]) &&
      var r := ReadVarInt(buf, off + 36);
      var at := off + 36 + r.len;
      at + r.value + 4 <= end &&
      var c := buf[at..at + r.value];
      if recognised(c)
      then i.script == Bytes(c) && i.signature == Null && end == at + |c| + 12 && i.amount == LE(buf[end - 12..end - 4])
      else i.script == Null && i.signature == Bytes(c) && end == at + |c| + 4 && i.amount == 0
  {
    hide ReadVarInt, LE;
  }

  lemma ReadOutputLayout(buf: seq<Byte>, off: nat)
    requires ReadOutput(buf, off).1 <= |buf|
    ensures var (o, end) := ReadOutput(buf, off);
      end >= off + 9 && o.amount == LE(buf[off..off + 8]) &&
      var r := ReadVarInt(buf, off + 8);
      end == off + 8 + r.len + r.value && o.script == buf[end - r.value..end]
  {
    hide ReadVarInt, LE;
  }

  /** And a transaction that ends inside the buffer. */
  lemma ParsedLayout(buf: seq<Byte>, recognised: seq<Byte> -> bool)
    requires ParseExact(buf, recognised).Parsed?
    ensures var tx, n, end := ParseExact(buf, recognised).tx, ReadVarInt(buf, 4), EndOfTx(buf, recognised);
      8 <= end <= |buf| && tx.version == LE(buf[..4]) && tx.lockTime == LE(buf[end - 4..end]) &&
      var (inputs, o1) := ReadInputs(buf, 4 + n.len, n.value, recognised);
      var m := ReadVarInt(buf, o1);
      tx.inputs == inputs && n.value == |inputs| > 0 && m.value == |tx.outputs| &&
      (tx.outputs, end - 4) == ReadOutputs(buf, o1 + m.len, m.value)
  {
    hide ReadVarInt, ReadInputs, ReadOutputs, LE;
    WholeWhenInside(buf, recognised);
    var n := ReadVarInt(buf, 4);
    var o1 := ReadInputs(buf, 4 + n.len, n.value, recognised).1;
    ReadInputsEnd(buf, 4 + n.len, n.value, recognised);
    ReadOutputsEnd(buf, o1 + ReadVarInt(buf, o1).len, ReadVarInt(buf, o1).value);
    assert buf[0..4] == buf[..4];
  }

  // ----- What is read takes up at least its own bytes -----

  lemma ReadVarIntSize(buf: seq<Byte>, off: nat)
    ensures var r := ReadVarInt(buf, off); r.value < LIMIT && VarIntSize(r.value) <= r.len
  {
    Powers();
    ReadLEBelow(buf, off + 1, 2);
    ReadLEBelow(buf, off + 1, 4);
    ReadLEBelow(buf, off + 1, 8);
  }

  lemma ReadLEBelow(buf: seq<Byte>, off: nat, n: nat)
    ensures ReadLE(buf, off, n) < Pow256(n)
  {
    if off + n <= |buf| {
      LEBelow(buf[off..off + n]);
    }
  }

  /** An input that is read in full is faithful, or is a script with amount 0, which took more than it would write. */
  lemma ReadInputLength(buf: seq<Byte>, off: nat, recognised: seq<Byte> -> bool)
    requires ReadInput(buf, off, recognised).1 <= |buf|
    ensures var (i, next) := ReadInput(buf, off, recognised);
      FitsIn(i) && next - off >= |InputBytes(i)| + if Faithful(i, recognised) then 0 else 1
  {
    hide ReadVarInt, ReadLE, ToLE, VarInt;
    var s := ReadVarInt(buf, off + 36);
    ReadVarIntSize(buf, off + 36);
    var at := off + 36 + s.len;
    Powers();
    ReadLEBelow(buf, at + s.value, 8);
  }

  lemma {:induction false} ReadInputsLength(buf: seq<Byte>, off: nat, count: nat, recognised: seq<Byte> -> bool)
    requires ReadInputs(buf, off, count, recognised).1 <= |buf|
    ensures var (ins, end) := ReadInputs(buf, off, count, recognised);
      |ins| == count && (forall k :: 0 <= k < |ins| ==> FitsIn(ins[k])) &&
      end - off >= |InputsBytes(ins)| + if forall k :: 0 <= k < |ins| ==> Faithful(ins[k], recognised) then 0 else 1
    decreases count
  {
    hide FitsIn, Faithful, InputBytes, ReadInput;
    if count > 0 {
      var (i, next) := ReadInput(buf, off, recognised);
      ReadInputsEnd(buf, next, count - 1, recognised);
      ReadInputLength(buf, off, recognised);
      ReadInputsLength(buf, next, count - 1, recognised);
      var (rest, end) := ReadInputs(buf, next, count - 1, recognised);
      Prepended(i, rest, recognised);
    }
  }

  lemma ReadInputsEnd(buf: seq<Byte>, off: nat, count: nat, recognised: seq<Byte> -> bool)
    ensures ReadInputs(buf, off, count, recognised).1 >= off
  {
  }

  lemma Prepended(i: TxIn, rest: seq<TxIn>, recognised: seq<Byte> -> bool)
    requires FitsIn(i) && forall k :: 0 <= k < |rest| ==> FitsIn(rest[k])
    ensures var all := [i] + rest;
      (forall k :: 0 <= k < |all| ==> FitsIn(all[k])) && |InputsBytes(all)| == |InputBytes(i)| + |InputsBytes(rest)| &&
      ((forall k :: 0 <= k < |all| ==> Faithful(all[k], recognised)) <==>
        Faithful(i, recognised) && forall k :: 0 <= k < |rest| ==> Faithful(rest[k], recognised))
  {
    hide FitsIn, Faithful, InputBytes;
    var all := [i] + rest;
    assert all[0] == i && all[1..] == rest;
    assert forall k :: 0 <= k < |rest| ==> rest[k] == all[k + 1];
  }

  lemma ReadOutputLength(buf: seq<Byte>, off: nat)
    requires ReadOutput(buf, off).1 <= |buf|
    ensures var (o, next) := ReadOutput(buf, off); FitsOut(o) && next - off >= |OutputBytes(o)|
  {
    hide ReadVarInt, ReadLE, ToLE, VarInt;
    ReadVarIntSize(buf, off + 8);
    Powers();
    ReadLEBelow(buf, off, 8);
  }

  lemma {:induction false} ReadOutputsLength(buf: seq<Byte>, off: nat, count: nat)
    requires ReadOutputs(buf, off, count).1 <= |buf|
    ensures var (outs, end) := ReadOutputs(buf, off, count);
      |outs| == count && (forall k :: 0 <= k < |outs| ==> FitsOut(outs[k])) && end - off >= |OutputsBytes(outs)|
    decreases count
  {
    hide FitsOut, OutputBytes, ReadOutput;
    if count > 0 {
      var (o, next) := ReadOutput(buf, off);
      var (rest, end) := ReadOutputs(buf, next, count - 1);
      ReadOutputLength(buf, off);
      ReadOutputsLength(buf, next, count - 1);
      assert ([o] + rest)[1..] == rest;
    }
  }

  // ----- Parsing with offsets of 64 bits -----

  /** A single input whose script length is 2^64 - 1: the wrapped test passes, and the script is read from outside
      the buffer. */
  lemma LongScriptPasses(buf: seq<Byte>, recognised: seq<Byte> -> bool)
    requires Addressable(buf) && At(buf, 4, [1]) && At(buf, 41, VarInt(LIMIT - 1))
    ensures ParseTx(buf, recognised) == Overread && ParseExact(buf, recognised) == Nothing
  {
    hide ReadVarInt, ReadWord, ReadInputs, ReadOutputs, ParseTx, ParseExact, VarInt;
    LongScriptEnds(buf, LIMIT - 1, recognised);
    ParseTxIs(buf, recognised);
    NotExact(buf, recognised);
  }

  /** A single input whose script length makes it end at 2^64 - 1: the code accepts a transaction that does not end
      inside the buffer, with the version once more as lock time. */
  lemma WrappedIsAccepted(buf: seq<Byte>, recognised: seq<Byte> -> bool)
    requires Addressable(buf) && At(buf, 4, [1]) && At(buf, 41, VarInt(LIMIT - 55))
    ensures ParseExact(buf, recognised) == Nothing
    ensures var input := TxIn(ReadHash(buf, 5), ReadWord(buf, 37), 0, Null, Null, 0);
      ParseTx(buf, recognised) == Parsed(Tx(ReadWord(buf, 0), [input], [], ReadWord(buf, 0)))
  {
    hide ReadVarInt, ReadWord, ReadInputs, ReadOutputs, ParseTx, ParseExact, VarInt;
    LongScriptEnds(buf, LIMIT - 55, recognised);
    ParseTxIs(buf, recognised);
    NotExact(buf, recognised);
  }

  /** What exact offsets make of such a buffer. */
  lemma LongScriptEnds(buf: seq<Byte>, s: nat, recognised: seq<Byte> -> bool)
    requires Addressable(buf) && At(buf, 4, [1]) && LIMIT - 55 <= s < LIMIT && At(buf, 41, VarInt(s))
    ensures ReadVarInt(buf, 4) == Read(1, 1) && EndOfInputs(buf, recognised) == s + 54
    ensures EndOfTx(buf, recognised) == s + 59
    ensures ReadInputs(buf, 5, 1, recognised).0 == [TxIn(ReadHash(buf, 5), ReadWord(buf, 37), 0, Null, Null, 0)]
  {
    hide VarInt, ReadVarInt, ReadWord, ReadHash;
    ReadVarIntAt(buf, 41, s);
    assert |VarInt(s)| == 9;
    OneInput(buf);
    var (input, next) := ReadInput(buf, 5, recognised);
    NotThere(buf, 50 + s);
    assert (input, next) == (TxIn(ReadHash(buf, 5), ReadWord(buf, 37), 0, Null, Null, 0), s + 54);
    NoneRead(buf, next, recognised);
    assert ReadInputs(buf, 5, 1, recognised) == ([input] + [], next);
    PastTheEnd(buf, next, next + 1);
  }

  lemma OneInput(buf: seq<Byte>)
    requires At(buf, 4, [1])
    ensures ReadVarInt(buf, 4) == Read(1, 1)
  {
    assert buf[4..5][0] == 1;
  }

  lemma NotExact(buf: seq<Byte>, recognised: seq<Byte> -> bool)
    requires EndOfTx(buf, recognised) > |buf|
    ensures ParseExact(buf, recognised) == Nothing
  {
    hide ReadVarInt, ReadWord, ReadInputs, ReadOutputs;
  }

  /** Parsing is as with exact offsets exactly when the end does not wrap. If it does the code reads outside the buffer,
      but for one case: when the inputs end at 2^64 - 1 the offset gets back to 0, and the code accepts what it read,
      without outputs and with the version once more as lock time. */
  lemma ParseTxIs(buf: seq<Byte>, recognised: seq<Byte> -> bool)
    requires Addressable(buf)
    ensures var n, version := ReadVarInt(buf, 4), ReadWord(buf, 0);
      var inputs := ReadInputs(buf, 4 + n.len, n.value, recognised).0;
      ParseTx(buf, recognised) ==
        if EndOfTx(buf, recognised) < LIMIT then ParseExact(buf, recognised)
        else if EndOfInputs(buf, recognised) == LIMIT - 1
        then Parsed(Tx(version, Filled(inputs, n.value, ZERO_IN), [], version))
        else Overread
  {
    hide ReadVarInt, ReadWord, ReadInputs, ReadOutputs, NextInputs, NextOutputs;
    var n := ReadVarInt(buf, 4);
    LongInside(buf, 4);
    var (inputs, o1) := ReadInputs(buf, 4 + n.len, n.value, recognised);
    NextInputsIs(buf, 4 + n.len, n.value, recognised);
    if |buf| < 4 {
      ShortEnds(buf, recognised);
    }
    if o1 < LIMIT {
      OutputsAndEnd(buf, o1);
      if EndOfTx(buf, recognised) <= |buf| {
        WholeWhenInside(buf, recognised);
      }
      if o1 == LIMIT - 1 {
        NoneRead(buf, 4 + n.len, recognised);
      }
    } else {
      LongInside(buf, o1);
      ReadOutputsEnd(buf, o1 + ReadVarInt(buf, o1).len, ReadVarInt(buf, o1).value);
    }
  }

  /** The outputs and the lock time, once the inputs have ended below 2^64. */
  lemma OutputsAndEnd(buf: seq<Byte>, o1: nat)
    requires Addressable(buf) && o1 < LIMIT
    ensures var m := ReadVarInt(buf, o1);
      var r, outs := ReadOutputs(buf, o1 + m.len, m.value), NextOutputs(buf, (o1 + m.len) % LIMIT, m.value);
      if r.1 + 4 < LIMIT then outs == Some(r) && !Overreads(r.1, 4, |buf|) && (r.1 + 4) % LIMIT == r.1 + 4
      else if o1 == LIMIT - 1
      then outs == Some(([], 0)) && m == Read(0, 1) && r.1 == LIMIT && (|buf| >= 4 ==> !Overreads(0, 4, |buf|))
      else outs == None || (outs == Some(r) && (|buf| >= 4 ==> Overreads(r.1, 4, |buf|)))
  {
    hide ReadVarInt, ReadOutputs, NextOutputs;
    var m := ReadVarInt(buf, o1);
    LongInside(buf, o1);
    ReadOutputsEnd(buf, o1 + m.len, m.value);
    if o1 > |buf| {
      PastTheEnd(buf, o1, o1 + 1);
      PastTheEnd(buf, o1, 0);
    }
    if o1 + m.len < LIMIT {
      NextOutputsIs(buf, o1 + m.len, m.value);
      var end := ReadOutputs(buf, o1 + m.len, m.value).1;
      if end < LIMIT <= end + 4 {
        Wrapped(end + 4);
      }
    } else {
      Wrapped(o1 + m.len);
    }
  }

  lemma NoneRead(buf: seq<Byte>, off: nat, recognised: seq<Byte> -> bool)
    ensures ReadInputs(buf, off, 0, recognised) == ([], off)
  {
  }

  lemma ShortEnds(buf: seq<Byte>, recognised: seq<Byte> -> bool)
    requires |buf| < 4
    ensures EndOfTx(buf, recognised) < LIMIT
  {
    assert ReadVarInt(buf, 4) == Read(0, 1);
    NoneRead(buf, 5, recognised);
    PastTheEnd(buf, 5, 6);
  }

  lemma {:induction false} AllInputs(buf: seq<Byte>, off: nat, count: nat, recognised: seq<Byte> -> bool)
    ensures var (ins, end) := ReadInputs(buf, off, count, recognised); end <= |buf| ==> |ins| == count
    decreases count
  {
    hide ReadInput;
    if count > 0 && off <= |buf| {
      AllInputs(buf, ReadInput(buf, off, recognised).1, count - 1, recognised);
    }
  }

  lemma {:induction false} AllOutputs(buf: seq<Byte>, off: nat, count: nat)
    ensures var (outs, end) := ReadOutputs(buf, off, count); end <= |buf| ==> |outs| == count
    decreases count
  {
    hide ReadOutput;
    if count > 0 && off <= |buf| {
      AllOutputs(buf, ReadOutput(buf, off).1, count - 1);
    }
  }

  /** Nothing is missing from a transaction that ends inside the buffer. */
  lemma WholeWhenInside(buf: seq<Byte>, recognised: seq<Byte> -> bool)
    requires EndOfTx(buf, recognised) <= |buf|
    ensures var n := ReadVarInt(buf, 4);
      var (inputs, o1) := ReadInputs(buf, 4 + n.len, n.value, recognised);
      var m := ReadVarInt(buf, o1);
      var (outputs, o2) := ReadOutputs(buf, o1 + m.len, m.value);
      |inputs| == n.value && |outputs| == m.value
  {
    hide ReadVarInt, ReadInputs, ReadOutputs;
    var n := ReadVarInt(buf, 4);
    var o1 := ReadInputs(buf, 4 + n.len, n.value, recognised).1;
    var m := ReadVarInt(buf, o1);
    ReadOutputsEnd(buf, o1 + m.len, m.value);
    AllInputs(buf, 4 + n.len, n.value, recognised);
    AllOutputs(buf, o1 + m.len, m.value);
  }

  /** What exact offsets accept ends inside the buffer, so the code accepts it too. */
  lemma ExactIsEnough(buf: seq<Byte>, recognised: seq<Byte> -> bool)
    requires Addressable(buf) && ParseExact(buf, recognised).Parsed?
    ensures ParseTx(buf, recognised) == ParseExact(buf, recognised)
  {
    hide ReadVarInt, ReadWord, ReadInputs, ReadOutputs, ParseTx;
    ParseTxIs(buf, recognised);
  }

  /** A written transaction is read back, whatever follows it. */
  lemma ParseSerialized(tx: Tx, recognised: seq<Byte> -> bool, rest: seq<Byte>)
    requires Fits(tx) && |tx.inputs| > 0 && forall k :: 0 <= k < |tx.inputs| ==> Faithful(tx.inputs[k], recognised)
    requires Addressable(TxBytes(tx) + rest)
    ensures ParseTx(TxBytes(tx) + rest, recognised) == Parsed(tx)
  {
    hide TxBytes, ParseTx, ParseExact, Faithful;
    ExactSerialized(tx, recognised, rest);
    ExactIsEnough(TxBytes(tx) + rest, recognised);
  }

  /** With exact offsets a transaction is restored only when reading can restore each input. */
  lemma ExactRestored(tx: Tx, recognised: seq<Byte> -> bool)
    requires Fits(tx) && ParseExact(TxBytes(tx), recognised) == Parsed(tx)
    ensures |tx.inputs| > 0 && forall k :: 0 <= k < |tx.inputs| ==> Faithful(tx.inputs[k], recognised)
  {
    hide ToLE, VarInt, ReadVarInt, ReadLE, InputsBytes;
    hide OutputsBytes, ReadInputs, ReadOutputs, FitsIn, FitsOut, Faithful;
    var buf := TxBytes(tx);
    var n := ReadVarInt(buf, 4);
    var (inputs, o1) := ReadInputs(buf, 4 + n.len, n.value, recognised);
    var m := ReadVarInt(buf, o1);
    var (outputs, o2) := ReadOutputs(buf, o1 + m.len, m.value);
    ReadOutputsEnd(buf, o1 + m.len, m.value);
    ReadVarIntSize(buf, 4);
    ReadVarIntSize(buf, o1);
    ReadInputsLength(buf, 4 + n.len, n.value, recognised);
    ReadOutputsLength(buf, o1 + m.len, m.value);
    TxBytesLength(tx);
  }

  /** A transaction is restored exactly when it has an input and reading can restore each. */
  lemma RestoredIff(tx: Tx, recognised: seq<Byte> -> bool)
    requires Fits(tx) && Addressable(TxBytes(tx))
    ensures ParseTx(TxBytes(tx), recognised) == Parsed(tx)
       <==> |tx.inputs| > 0 && forall k :: 0 <= k < |tx.inputs| ==> Faithful(tx.inputs[k], recognised)
  {
    hide TxBytes, ParseTx, ParseExact, Faithful, ReadInputs, ReadVarInt, EndOfTx, EndOfInputs;
    var buf := TxBytes(tx);
    if |tx.inputs| > 0 && forall k :: 0 <= k < |tx.inputs| ==> Faithful(tx.inputs[k], recognised) {
      ParseSerialized(tx, recognised, []);
      assert buf + [] == buf;
    }
    if ParseTx(buf, recognised) == Parsed(tx) {
      ParseTxIs(buf, recognised);
      if EndOfTx(buf, recognised) < LIMIT {
        ExactRestored(tx, recognised);
      } else {
        NotByWrapping(tx, recognised);
        assert false;
      }
    }
  }

  /** What the code accepts with wrapped offsets is not what was written. */
  lemma NotByWrapping(tx: Tx, recognised: seq<Byte> -> bool)
    requires Fits(tx) && Addressable(TxBytes(tx)) && EndOfInputs(TxBytes(tx), recognised) == LIMIT - 1
    ensures var buf := TxBytes(tx);
      var n := ReadVarInt(buf, 4);
      var inputs := ReadInputs(buf, 4 + n.len, n.value, recognised).0;
      tx.outputs == [] ==> Filled(inputs, n.value, ZERO_IN) != tx.inputs
  {
    hide ReadVarInt, ReadInputs, ToLE, InputsBytes, OutputsBytes, Filled, ZERO_IN;
    var buf, version, n := TxBytes(tx), ToLE(tx.version, 4), VarInt(|tx.inputs|);
    var ins, m, outs := InputsBytes(tx.inputs), VarInt(|tx.outputs|), OutputsBytes(tx.outputs);
    var lock := ToLE(tx.lockTime, 4);
    assert At(buf, 0, buf);
    AtSplit(buf, 0, version + n + ins + m + outs, lock);
    AtSplit(buf, 0, version + n + ins + m, outs);
    AtSplit(buf, 0, version + n + ins, m);
    AtSplit(buf, 0, version + n, ins);
    AtSplit(buf, 0, version, n);
    ReadVarIntAt(buf, 4, |tx.inputs|);
    var read := ReadInputs(buf, 4 + |n|, |tx.inputs|, recognised).0;
    if tx.outputs == [] && Filled(read, |tx.inputs|, ZERO_IN) == tx.inputs {
      NoOutputBytes();
      LongLengthMissing(buf, 4 + |n|, 4 + |n|, tx.inputs, recognised);
      assert false;
    }
  }

  lemma NoOutputBytes()
    ensures OutputsBytes([]) == [] && |VarInt(0)| == 1
  {
  }

  /** A buffer that ends with the inputs it should give and five more bytes has no room for a script length that wraps:
      the bytes where it would be are zero. */
  lemma {:induction false} LongLengthMissing(buf: seq<Byte>, w: nat, r: nat, inputs: seq<TxIn>,
                                             recognised: seq<Byte> -> bool)
    requires Addressable(buf) && forall k :: 0 <= k < |inputs| ==> FitsIn(inputs[k])
    requires At(buf, w, InputsBytes(inputs)) && |buf| == w + |InputsBytes(inputs)| + 5 && w <= r <= |buf|
    requires ReadInputs(buf, r, |inputs|, recognised).1 == LIMIT - 1
    ensures Filled(ReadInputs(buf, r, |inputs|, recognised).0, |inputs|, ZERO_IN) != inputs
    decreases |inputs|
  {
    hide ReadInput, FitsIn, InputBytes, ZERO_IN, At;
    if |inputs| > 0 && Filled(ReadInputs(buf, r, |inputs|, recognised).0, |inputs|, ZERO_IN) == inputs {
      var (input, next) := ReadInput(buf, r, recognised);
      var rest := ReadInputs(buf, next, |inputs| - 1, recognised).0;
      FilledStep(input, rest, inputs, ZERO_IN);
      AtSplit(buf, w, InputBytes(inputs[0]), InputsBytes(inputs[1..]));
      if next <= |buf| {
        ReadInputLength(buf, r, recognised);
        LongLengthMissing(buf, w + |InputBytes(inputs[0])|, next, inputs[1..], recognised);
      } else {
        LengthByte(buf, r, recognised);
        assert rest == [];
        BlankBytes(inputs);
        ByteAt(buf, w, InputsBytes(inputs), r + 36 - w);
      }
      assert false;
    }
  }

  lemma ByteAt(buf: seq<Byte>, off: nat, bytes: seq<Byte>, i: nat)
    requires At(buf, off, bytes) && i < |bytes|
    ensures off + i < |buf| && buf[off + i] == bytes[i]
  {
    assert buf[off..off + |bytes|][i] == bytes[i];
  }

  lemma FilledStep<T>(x: T, rest: seq<T>, all: seq<T>, zero: T)
    requires |all| > 0 && Filled([x] + rest, |all|, zero) == all
    ensures x == all[0] && Filled(rest, |all| - 1, zero) == all[1..]
  {
    assert Filled([x] + rest, |all|, zero)[0] == x;
    assert Filled(rest, |all| - 1, zero) == Filled([x] + rest, |all|, zero)[1..];
  }

  /** An input that ends at 2^64 - 1 has a nine-byte length in the buffer, and nothing but zeros can be written behind
      the index of what is read. */
  lemma LengthByte(buf: seq<Byte>, r: nat, recognised: seq<Byte> -> bool)
    requires Addressable(buf) && r <= |buf| && ReadInput(buf, r, recognised).1 == LIMIT - 1
    ensures r + 45 <= |buf| && buf[r + 36] == VAR_INT64_HEADER
    ensures var i := ReadInput(buf, r, recognised).0;
      i.script == Null && i.signature == Null && i.amount == 0 && i.sequence == 0
  {
    hide ReadLE;
    var s := ReadVarInt(buf, r + 36);
    LongInside(buf, r + 36);
    NineBytes(buf, r + 36);
    assert s.value >= 0x1_0000_0000;
    assert ReadWord(buf, r + 36 + s.len + s.value) == 0 by { NotThere(buf, r + 36 + s.len + s.value); }
  }

  lemma NotThere(buf: seq<Byte>, off: nat)
    requires off + 4 > |buf|
    ensures ReadWord(buf, off) == 0
  {
  }

  predicate AllZero(bytes: seq<Byte>) {
    forall k :: 0 <= k < |bytes| ==> bytes[k] == 0
  }

  lemma {:induction false} ZeroLE(n: nat)
    ensures AllZero(ToLE(0, n))
  {
    if n > 0 {
      ZeroLE(n - 1);
    }
  }

  lemma BlankInput(i: TxIn)
    requires FitsIn(i) && i.script == Null && i.signature == Null && i.amount == 0 && i.sequence == 0
    ensures InputBytes(i) == i.hash + ToLE(i.index, 4) + ([0] + ToLE(0, 4)) && AllZero([0] + ToLE(0, 4))
  {
    ZeroLE(4);
    assert VarInt(0) == [0];
  }

  lemma {:induction false} ZeroInputs(inputs: seq<TxIn>)
    requires forall k :: 0 <= k < |inputs| ==> FitsIn(inputs[k]) && inputs[k] == ZERO_IN
    ensures AllZero(InputsBytes(inputs))
  {
    hide InputBytes, FitsIn, ToLE;
    if inputs != [] {
      ZeroInputs(inputs[1..]);
      BlankInput(inputs[0]);
      ZeroLE(32);
      ZeroLE(4);
    }
  }

  /** An input without script, followed by zero ones: zeros from the length on. */
  lemma BlankBytes(inputs: seq<TxIn>)
    requires |inputs| > 0 && forall k :: 0 <= k < |inputs| ==> FitsIn(inputs[k])
    requires var i := inputs[0]; i.script == Null && i.signature == Null && i.amount == 0 && i.sequence == 0
    requires Filled([], |inputs| - 1, ZERO_IN) == inputs[1..]
    ensures forall k :: 36 <= k < |InputsBytes(inputs)| ==> InputsBytes(inputs)[k] == 0
  {
    hide InputBytes, ToLE, ZERO_IN;
    forall k | 0 <= k < |inputs| - 1
      ensures inputs[1..][k] == ZERO_IN && FitsIn(inputs[1..][k])
    {
      assert Filled([], |inputs| - 1, ZERO_IN)[k] == ZERO_IN;
    }
    ZeroInputs(inputs[1..]);
    BlankInput(inputs[0]);
    assert |inputs[0].hash + ToLE(inputs[0].index, 4)| == 36;
  }

  lemma NineBytes(buf: seq<Byte>, off: nat)
    ensures ReadVarInt(buf, off).value >= 0x1_0000_0000 ==> off + 9 <= |buf| && buf[off] == VAR_INT64_HEADER
  {
    Powers();
    ReadLEBelow(buf, off + 1, 2);
    ReadLEBelow(buf, off + 1, 4);
  }

  lemma ReadOutputsEnd(buf: seq<Byte>, off: nat, count: nat)
    ensures ReadOutputs(buf, off, count).1 >= off
  {
  }

  lemma TxBytesLength(tx: Tx)
    requires Fits(tx)
    ensures |TxBytes(tx)| == 8 + VarIntSize(|tx.inputs|) + |InputsBytes(tx.inputs)| +
                             VarIntSize(|tx.outputs|) + |OutputsBytes(tx.outputs)|
  {
  }

  // ----- Sizes -----

  function InputSize(i: TxIn): nat {
    if i.signature.Bytes? then 40 + VarIntSize(|i.signature.bytes|) + |i.signature.bytes| else TX_INPUT_SIZE
  }

  function InputsSize(inputs: seq<TxIn>): nat {
    if inputs == [] then 0 else InputSize(inputs[0]) + InputsSize(inputs[1..])
  }

  function OutputsSize(outputs: seq<TxOut>): nat {
    if outputs == [] then 0
    else 8 + VarIntSize(|outputs[0].script|) + |outputs[0].script| + OutputsSize(outputs[1..])
  }

  /** The size that is known or, for inputs without a signature, estimated. */
  function TxSize(tx: Tx): nat {
    8 + VarIntSize(|tx.inputs|) + VarIntSize(|tx.outputs|) + InputsSize(tx.inputs) + OutputsSize(tx.outputs)
  }

  lemma {:induction false} InputsSizeIs(inputs: seq<TxIn>)
    requires forall k :: 0 <= k < |inputs| ==> FitsIn(inputs[k]) && inputs[k].signature.Bytes?
    ensures InputsSize(inputs) == |InputsBytes(inputs)|
  {
    hide ToLE, VarInt;
    if inputs != [] {
      InputsSizeIs(inputs[1..]);
    }
  }

  lemma {:induction false} OutputsSizeIs(outputs: seq<TxOut>)
    requires forall k :: 0 <= k < |outputs| ==> FitsOut(outputs[k])
    ensures OutputsSize(outputs) == |OutputsBytes(outputs)|
  {
    hide ToLE, VarInt;
    if outputs != [] {
      OutputsSizeIs(outputs[1..]);
    }
  }

  /** Of a signed transaction it is exactly the number of its bytes. */
  lemma SignedSize(tx: Tx)
    requires Fits(tx) && forall k :: 0 <= k < |tx.inputs| ==> tx.inputs[k].signature.Bytes?
    ensures TxSize(tx) == |TxBytes(tx)|
  {
    hide InputsSize, OutputsSize, InputsBytes, OutputsBytes, FitsIn, FitsOut;
    TxBytesLength(tx);
    InputsSizeIs(tx.inputs);
    OutputsSizeIs(tx.outputs);
  }

  // ----- Writing into a buffer, or only measuring -----

  /** The room of a buffer; negative for none, when only the length is wanted. */
  function Room(data: array?<Byte>): int {
    if data == null then -1 else data.Length
  }

  function Advance(off: nat, len: nat, room: int): nat {
    if room < 0 || off + len <= room then len else 0
  }

  /** A part reports its length, or 0 when it ends beyond the buffer; a length that does not fit is left out. */
  function InputEnd(i: TxIn, off: nat, room: int): nat {
    off + 36 + Advance(off + 36, VarIntSize(|Content(i)|), room) + |Content(i)| + |AmountBytes(i)| + 4
  }

  function InputLen(i: TxIn, off: nat, room: int): nat {
    if room < 0 || InputEnd(i, off, room) <= room then InputEnd(i, off, room) - off else 0
  }

  function InputsEnd(inputs: seq<TxIn>, off: nat, room: int): nat {
    if inputs == [] then off
    else
      var end := InputsEnd(inputs[..|inputs| - 1], off, room);
      end + InputLen(inputs[|inputs| - 1], end, room)
  }

  function OutputsEnd(outputs: seq<TxOut>, off: nat, room: int): (end: nat)
    ensures end >= off
  {
    if outputs == [] then off
    else
      var at := OutputsEnd(outputs[..|outputs| - 1], off, room) + 8;
      var script := outputs[|outputs| - 1].script;
      at + Advance(at, VarIntSize(|script|), room) + |script|
  }

  function OutputsLen(outputs: seq<TxOut>, off: nat, room: int): nat {
    if room < 0 || OutputsEnd(outputs, off, room) <= room then OutputsEnd(outputs, off, room) - off else 0
  }

  /** What writing a transaction reports. */
  function Reported(tx: Tx, room: int): nat {
    var o1 := 4 + Advance(4, VarIntSize(|tx.inputs|), room);
    var o2 := InputsEnd(tx.inputs, o1, room);
    var o3 := o2 + Advance(o2, VarIntSize(|tx.outputs|), room);
    var o4 := o3 + OutputsLen(tx.outputs, o3, room) + 4;
    if room < 0 || o4 <= room then o4 else 0
  }

  lemma {:induction false} InputsSnoc(inputs: seq<TxIn>, i: TxIn)
    requires FitsIn(i) && forall k :: 0 <= k < |inputs| ==> FitsIn(inputs[k])
    ensures (forall k :: 0 <= k < |inputs + [i]| ==> FitsIn((inputs + [i])[k]))
    ensures InputsBytes(inputs + [i]) == InputsBytes(inputs) + InputBytes(i)
  {
    hide FitsIn, InputBytes;
    if inputs == [] {
      assert inputs + [i] == [i] && [i][1..] == [];
    } else {
      assert (inputs + [i])[1..] == inputs[1..] + [i];
      InputsSnoc(inputs[1..], i);
    }
  }

  lemma {:induction false} OutputsSnoc(outputs: seq<TxOut>, o: TxOut)
    requires FitsOut(o) && forall k :: 0 <= k < |outputs| ==> FitsOut(outputs[k])
    ensures (forall k :: 0 <= k < |outputs + [o]| ==> FitsOut((outputs + [o])[k]))
    ensures OutputsBytes(outputs + [o]) == OutputsBytes(outputs) + OutputBytes(o)
  {
    hide FitsOut, OutputBytes;
    if outputs == [] {
      assert outputs + [o] == [o] && [o][1..] == [];
    } else {
      assert (outputs + [o])[1..] == outputs[1..] + [o];
      OutputsSnoc(outputs[1..], o);
    }
  }

  lemma {:induction false} InputsEndFits(inputs: seq<TxIn>, off: nat, room: int)
    requires forall k :: 0 <= k < |inputs| ==> FitsIn(inputs[k])
    requires room < 0 || off + |InputsBytes(inputs)| <= room
    ensures InputsEnd(inputs, off, room) == off + |InputsBytes(inputs)|
  {
    hide FitsIn, InputBytes, InputsBytes, InputLen;
    if inputs == [] {
      NoInputs();
    } else {
      var front, i := inputs[..|inputs| - 1], inputs[|inputs| - 1];
      assert inputs == front + [i];
      InputsSnoc(front, i);
      InputsEndFits(front, off, room);
      InputLenFits(i, off + |InputsBytes(front)|, room);
    }
  }

  lemma NoInputs()
    ensures InputsBytes([]) == []
  {
  }

  lemma InputLenFits(i: TxIn, off: nat, room: int)
    requires FitsIn(i) && (room < 0 || off + |InputBytes(i)| <= room)
    ensures InputLen(i, off, room) == |InputBytes(i)|
  {
    hide ToLE, VarInt;
  }

  lemma {:induction false} OutputsEndFits(outputs: seq<TxOut>, off: nat, room: int)
    requires forall k :: 0 <= k < |outputs| ==> FitsOut(outputs[k])
    requires room < 0 || off + |OutputsBytes(outputs)| <= room
    ensures OutputsEnd(outputs, off, room) == off + |OutputsBytes(outputs)|
  {
    hide ToLE, VarInt, OutputsBytes;
    if outputs == [] {
      NoOutputs();
    } else {
      var front, o := outputs[..|outputs| - 1], outputs[|outputs| - 1];
      assert outputs == front + [o];
      OutputsSnoc(front, o);
      OutputsEndFits(front, off, room);
    }
  }

  lemma NoOutputs()
    ensures OutputsBytes([]) == [] && forall off: nat, room: int :: OutputsEnd([], off, room) == off
  {
  }

  /** The length with no buffer, and with one that is large enough, is the number of bytes; a shorter buffer
      never gets it reported. */
  lemma ReportedIff(tx: Tx, room: int)
    requires Fits(tx)
    ensures Reported(tx, room) == |TxBytes(tx)| <==> room < 0 || |TxBytes(tx)| <= room
  {
    hide ToLE, VarInt, InputsBytes, OutputsBytes, InputsEnd, OutputsEnd, FitsIn, FitsOut;
    TxBytesLength(tx);
    if room < 0 || |TxBytes(tx)| <= room {
      var o1 := 4 + VarIntSize(|tx.inputs|);
      InputsEndFits(tx.inputs, o1, room);
      OutputsEndFits(tx.outputs, o1 + |InputsBytes(tx.inputs)| + VarIntSize(|tx.outputs|), room);
    }
  }

  /** A shorter buffer can still get a length other than 0 reported: here 51 for 52 of 60 bytes. */
  lemma ShortBufferReports(hash: seq<Byte>)
    requires |hash| == 32
    ensures var tx := Tx(1, [TxIn(hash, 0, 0, Null, Bytes([]), 0)], [TxOut(0, [])], 0);
      Fits(tx) && |TxBytes(tx)| == 60 && Reported(tx, 52) == 51
  {
    hide ToLE, VarInt;
    var i, o := TxIn(hash, 0, 0, Null, Bytes([]), 0), TxOut(0, []);
    var tx := Tx(1, [i], [o], 0);
    assert [i][..0] == [] && [o][..0] == [] && [i][1..] == [] && [o][1..] == [];
    assert |InputBytes(i)| == 41 && |InputsBytes([i])| == 41;
    assert |OutputBytes(o)| == 9 && |OutputsBytes([o])| == 9;
    TxBytesLength(tx);
    assert InputsEnd([], 5, 52) == 5 && InputLen(i, 5, 52) == 41;
    assert InputsEnd([i], 5, 52) == 46;
    assert OutputsEnd([], 47, 52) == 47;
    assert OutputsEnd([o], 47, 52) == 55;
  }

  /** now is was with bytes written at an offset. */
  predicate Wrote(was: seq<Byte>, now: seq<Byte>, off: nat, bytes: seq<Byte>) {
    off + |bytes| <= |was| && now == was[..off] + bytes + was[off + |bytes|..]
  }

  lemma WroteInFront(was: seq<Byte>, now: seq<Byte>, bytes: seq<Byte>)
    requires Wrote(was, now, 0, bytes)
    ensures |bytes| <= |now| == |was| && now[..|bytes|] == bytes && now[|bytes|..] == was[|bytes|..]
  {
  }

  lemma WroteMore(was: seq<Byte>, mid: seq<Byte>, now: seq<Byte>, off: nat, a: seq<Byte>, b: seq<Byte>)
    requires Wrote(was, mid, off, a) && Wrote(mid, now, off + |a|, b)
    ensures Wrote(was, now, off, a + b)
  {
    assert mid[..off + |a|] == was[..off] + a;
    assert mid[off + |a| + |b|..] == was[off + |a| + |b|..];
    assert was[..off] + a + b + was[off + |a| + |b|..] == was[..off] + (a + b) + was[off + |a + b|..];
  }

  /** The contents of a buffer. */
  function Contents(data: array?<Byte>): seq<Byte>
    reads data
  {
    if data == null then [] else data[..]
  }

  /** A part being written: the buffer before, where the part starts, what is written of it; ok tells whether
      all of it will fit. */
  datatype Part = Part(was: seq<Byte>, start: nat, done: seq<Byte>, ok: bool)

  predicate Going(p: Part, now: seq<Byte>, off: nat) {
    p.ok ==> off == p.start + |p.done| && Wrote(p.was, now, p.start, p.done)
  }

  function More(p: Part, bytes: seq<Byte>): Part {
    p.(done := p.done + bytes)
  }

  lemma GoingStarts(was: seq<Byte>, off: nat, ok: bool)
    requires ok ==> off <= |was|
    ensures Going(Part(was, off, [], ok), was, off)
  {
  }

  lemma GoingOn(p: Part, mid: seq<Byte>, now: seq<Byte>, off: nat, bytes: seq<Byte>)
    requires Going(p, mid, off) && (p.ok ==> Wrote(mid, now, off, bytes))
    ensures Going(More(p, bytes), now, off + |bytes|)
  {
    if p.ok {
      WroteMore(p.was, mid, now, p.start, p.done, bytes);
    }
  }

  lemma GoingEnds(p: Part, now: seq<Byte>, off: nat)
    requires Going(p, now, off) && p.ok
    ensures Wrote(p.was, now, p.start, p.done)
  {
  }

  method PutBytes(data: array?<Byte>, off: nat, bytes: seq<Byte>, ghost p: Part)
    requires Going(p, Contents(data), off) && (p.ok ==> off + |bytes| <= Room(data))
    modifies data
    ensures Going(More(p, bytes), Contents(data), off + |bytes|)
  {
    ghost var mid := Contents(data);
    if data != null && off + |bytes| <= data.Length {
      forall k | off <= k < off + |bytes| {
        data[k] := bytes[k - off];
      }
      assert data[off..off + |bytes|] == bytes;
      assert data[..] == data[..off] + data[off..off + |bytes|] + data[off + |bytes|..];
      assert Wrote(mid, Contents(data), off, bytes);
    }
    GoingOn(p, mid, Contents(data), off, bytes);
  }

  method PutVarInt(data: array?<Byte>, off: nat, v: nat, ghost p: Part) returns (len: nat)
    requires v < LIMIT && Going(p, Contents(data), off) && (p.ok ==> off + VarIntSize(v) <= Room(data))
    modifies data
    ensures len == Advance(off, VarIntSize(v), Room(data))
    ensures Going(More(p, VarInt(v)), Contents(data), off + len)
  {
    hide Going;
    PutBytes(data, off, VarInt(v), p);
    len := if data == null || off + VarIntSize(v) <= data.Length then VarIntSize(v) else 0;
    NotGoing(More(p, VarInt(v)), Contents(data), off + VarIntSize(v), off + len);
  }

  lemma NotGoing(p: Part, now: seq<Byte>, off: nat, off': nat)
    requires Going(p, now, off) && (off == off' || !p.ok)
    ensures Going(p, now, off')
  {
  }

  method PutInput(data: array?<Byte>, off: nat, i: TxIn) returns (len: nat)
    requires FitsIn(i)
    modifies data
    ensures len == InputLen(i, off, Room(data))
    ensures off + |InputBytes(i)| <= Room(data) ==> Wrote(old(Contents(data)), Contents(data), off, InputBytes(i))
  {
    hide Going, Wrote, ToLE, VarInt, Content, AmountBytes;
    ghost var fits := off + |InputBytes(i)| <= Room(data);
    var content := Content(i);
    InputBytesLength(i);
    GoingStarts(Contents(data), off, fits);
    ghost var p := Part(Contents(data), off, [], fits);
    PutBytes(data, off, i.hash, p);
    p := More(p, i.hash);
    PutBytes(data, off + 32, ToLE(i.index, 4), p);
    p := More(p, ToLE(i.index, 4));
    var size := PutVarInt(data, off + 36, |content|, p);
    p := More(p, VarInt(|content|));
    var at := off + 36 + size;
    PutBytes(data, at, content, p);
    p := More(p, content);
    at := at + |content|;
    PutBytes(data, at, AmountBytes(i), p);
    p := More(p, AmountBytes(i));
    at := at + |AmountBytes(i)|;
    PutBytes(data, at, ToLE(i.sequence, 4), p);
    p := More(p, ToLE(i.sequence, 4));
    at := at + 4;
    if fits {
      GoingEnds(p, Contents(data), at);
      assert [] + i.hash == i.hash;
    }
    len := if data == null || at <= data.Length then at - off else 0;
  }

  lemma InputBytesLength(i: TxIn)
    requires FitsIn(i)
    ensures |InputBytes(i)| == 40 + VarIntSize(|Content(i)|) + |Content(i)| + |AmountBytes(i)|
  {
  }

  method PutInputs(data: array?<Byte>, off: nat, inputs: seq<TxIn>, ghost p0: Part) returns (end: nat)
    requires forall k :: 0 <= k < |inputs| ==> FitsIn(inputs[k])
    requires Going(p0, Contents(data), off) && (p0.ok ==> off + |InputsBytes(inputs)| <= Room(data))
    modifies data
    ensures end == InputsEnd(inputs, off, Room(data))
    ensures Going(More(p0, InputsBytes(inputs)), Contents(data), end)
  {
    hide Going, Wrote, FitsIn, InputBytes, InputsBytes, InputLen;
    end := off;
    var k: nat := 0;
    NoInputs();
    assert p0.done + [] == p0.done;
    while k < |inputs|
      invariant k <= |inputs| && end == InputsEnd(inputs[..k], off, Room(data))
      invariant Going(More(p0, InputsBytes(inputs[..k])), Contents(data), end)
    {
      ghost var p, mid := More(p0, InputsBytes(inputs[..k])), Contents(data);
      assert inputs[..k + 1] == inputs[..k] + [inputs[k]];
      InputsSnoc(inputs[..k], inputs[k]);
      if p0.ok {
        InputsPrefix(inputs, k + 1);
        InputsEndFits(inputs[..k], off, Room(data));
        InputLenFits(inputs[k], end, Room(data));
      }
      var len := PutInput(data, end, inputs[k]);
      GoingOn(p, mid, Contents(data), end, InputBytes(inputs[k]));
      Reassociate(p0, InputsBytes(inputs[..k]), InputBytes(inputs[k]));
      NotGoing(More(p, InputBytes(inputs[k])), Contents(data), end + |InputBytes(inputs[k])|, end + len);
      end := end + len;
      k := k + 1;
    }
    assert inputs[..k] == inputs;
  }

  lemma Reassociate(p: Part, a: seq<Byte>, b: seq<Byte>)
    ensures More(More(p, a), b) == More(p, a + b)
  {
    assert p.done + a + b == p.done + (a + b);
  }

  lemma {:induction false} InputsPrefix(inputs: seq<TxIn>, k: nat)
    requires k <= |inputs| && forall j :: 0 <= j < |inputs| ==> FitsIn(inputs[j])
    ensures |InputsBytes(inputs[..k])| <= |InputsBytes(inputs)|
    decreases |inputs| - k
  {
    hide FitsIn, InputBytes, InputsBytes;
    if k == |inputs| {
      assert inputs[..k] == inputs;
    } else {
      assert inputs[..k + 1] == inputs[..k] + [inputs[k]];
      InputsSnoc(inputs[..k], inputs[k]);
      InputsPrefix(inputs, k + 1);
    }
  }

  method PutOutput(data: array?<Byte>, off: nat, o: TxOut, ghost p0: Part) returns (end: nat)
    requires FitsOut(o) && Going(p0, Contents(data), off) && (p0.ok ==> off + |OutputBytes(o)| <= Room(data))
    modifies data
    ensures end == off + 8 + Advance(off + 8, VarIntSize(|o.script|), Room(data)) + |o.script|
    ensures Going(More(p0, OutputBytes(o)), Contents(data), end)
  {
    hide Going, Wrote, ToLE, VarInt;
    ghost var p := p0;
    PutBytes(data, off, ToLE(o.amount, 8), p);
    p := More(p, ToLE(o.amount, 8));
    var size := PutVarInt(data, off + 8, |o.script|, p);
    p := More(p, VarInt(|o.script|));
    PutBytes(data, off + 8 + size, o.script, p);
    Reassociate(p0, ToLE(o.amount, 8), VarInt(|o.script|));
    Reassociate(p0, ToLE(o.amount, 8) + VarInt(|o.script|), o.script);
    end := off + 8 + size + |o.script|;
  }

  /** The next output is written where the ones before it end, and adds its own bytes. */
  lemma BeforeOutput(outputs: seq<TxOut>, k: nat, off: nat, room: int, ok: bool)
    requires k < |outputs| && forall j :: 0 <= j < |outputs| ==> FitsOut(outputs[j])
    requires ok ==> off + |OutputsBytes(outputs)| <= room
    ensures OutputsBytes(outputs[..k + 1]) == OutputsBytes(outputs[..k]) + OutputBytes(outputs[k])
    ensures var at, script := OutputsEnd(outputs[..k], off, room) + 8, outputs[k].script;
      OutputsEnd(outputs[..k + 1], off, room) == at + Advance(at, VarIntSize(|script|), room) + |script|
    ensures ok ==> OutputsEnd(outputs[..k], off, room) + |OutputBytes(outputs[k])| <= room
  {
    hide OutputsBytes, OutputBytes, FitsOut, Advance;
    assert outputs[..k + 1] == outputs[..k] + [outputs[k]];
    assert outputs[..k + 1][..k] == outputs[..k];
    OutputsSnoc(outputs[..k], outputs[k]);
    if ok {
      OutputsPrefix(outputs, k + 1);
      OutputsEndFits(outputs[..k], off, room);
    }
  }

  method PutOutputs(data: array?<Byte>, off: nat, outputs: seq<TxOut>, ghost p0: Part) returns (len: nat)
    requires forall k :: 0 <= k < |outputs| ==> FitsOut(outputs[k])
    requires Going(p0, Contents(data), off) && (p0.ok ==> off + |OutputsBytes(outputs)| <= Room(data))
    modifies data
    ensures len == OutputsLen(outputs, off, Room(data))
    ensures Going(More(p0, OutputsBytes(outputs)), Contents(data), off + len)
  {
    hide Going, Wrote, OutputsBytes, OutputBytes, FitsOut, OutputsEnd;
    var at := off;
    var k: nat := 0;
    NoOutputs();
    assert p0.done + [] == p0.done;
    while k < |outputs|
      invariant k <= |outputs| && at == OutputsEnd(outputs[..k], off, Room(data))
      invariant Going(More(p0, OutputsBytes(outputs[..k])), Contents(data), at)
    {
      BeforeOutput(outputs, k, off, Room(data), p0.ok);
      at := PutOutput(data, at, outputs[k], More(p0, OutputsBytes(outputs[..k])));
      Reassociate(p0, OutputsBytes(outputs[..k]), OutputBytes(outputs[k]));
      k := k + 1;
    }
    assert outputs[..k] == outputs;
    if p0.ok {
      OutputsEndFits(outputs, off, Room(data));
    }
    len := if data == null || at <= data.Length then at - off else 0;
    NotGoing(More(p0, OutputsBytes(outputs)), Contents(data), at, off + len);
  }

  lemma {:induction false} OutputsPrefix(outputs: seq<TxOut>, k: nat)
    requires k <= |outputs| && forall j :: 0 <= j < |outputs| ==> FitsOut(outputs[j])
    ensures |OutputsBytes(outputs[..k])| <= |OutputsBytes(outputs)|
    decreases |outputs| - k
  {
    hide FitsOut, OutputBytes, OutputsBytes;
    if k == |outputs| {
      assert outputs[..k] == outputs;
    } else {
      assert outputs[..k + 1] == outputs[..k] + [outputs[k]];
      OutputsSnoc(outputs[..k], outputs[k]);
      OutputsPrefix(outputs, k + 1);
    }
  }

  /** Writes the transaction, or only measures it when there is no buffer. */
  method Serialize(data: array?<Byte>, tx: Tx) returns (len: nat)
    requires Fits(tx)
    modifies data
    ensures len == Reported(tx, Room(data))
    ensures data != null && |TxBytes(tx)| <= data.Length ==>
      len == |TxBytes(tx)| && data[..len] == TxBytes(tx) && data[len..] == old(data[len..])
  {
    hide Going, Wrote, ToLE, VarInt, InputsBytes, OutputsBytes, InputsEnd, OutputsEnd, FitsIn, FitsOut, OutputsLen;
    ghost var fits := |TxBytes(tx)| <= Room(data);
    TxBytesLength(tx);
    if fits {
      InputsEndFits(tx.inputs, 4 + VarIntSize(|tx.inputs|), Room(data));
    }
    GoingStarts(Contents(data), 0, fits);
    ghost var p := Part(Contents(data), 0, [], fits);
    PutBytes(data, 0, ToLE(tx.version, 4), p);
    p := More(p, ToLE(tx.version, 4));
    var size := PutVarInt(data, 4, |tx.inputs|, p);
    p := More(p, VarInt(|tx.inputs|));
    var off := PutInputs(data, 4 + size, tx.inputs, p);
    p := More(p, InputsBytes(tx.inputs));
    size := PutVarInt(data, off, |tx.outputs|, p);
    p := More(p, VarInt(|tx.outputs|));
    off := off + size;
    if fits {
      OutputsLenFits(tx.outputs, off, Room(data));
    }
    size := PutOutputs(data, off, tx.outputs, p);
    p := More(p, OutputsBytes(tx.outputs));
    off := off + size;
    PutBytes(data, off, ToLE(tx.lockTime, 4), p);
    p := More(p, ToLE(tx.lockTime, 4));
    off := off + 4;
    if fits {
      GoingEnds(p, Contents(data), off);
      assert [] + ToLE(tx.version, 4) == ToLE(tx.version, 4);
      WroteInFront(p.was, Contents(data), TxBytes(tx));
    }
    len := if data == null || off <= data.Length then off else 0;
  }

  lemma OutputsLenFits(outputs: seq<TxOut>, off: nat, room: int)
    requires forall k :: 0 <= k < |outputs| ==> FitsOut(outputs[k])
    requires room < 0 || off + |OutputsBytes(outputs)| <= room
    ensures OutputsLen(outputs, off, room) == |OutputsBytes(outputs)|
  {
    OutputsEndFits(outputs, off, room);
  }

  // ----- Reading and measuring with loops -----

  /** Offsets are 64-bit sums; Overread where the code would go on to read outside the buffer. */
  method Parse(buf: seq<Byte>, recognised: seq<Byte> -> bool) returns (p: Parsed)
    requires Addressable(buf)
    ensures p == ParseTx(buf, recognised)
  {
    hide ReadVarInt, ReadLE, NextInput, NextOutput, ReadWord, ZERO_IN, ZERO_OUT, Overreads;
    var version := ReadWord(buf, 0);
    var n := ReadVarInt(buf, 4);
    var off: nat := 4 + n.len;
    ghost var o0 := off;
    var inputs: seq<TxIn> := [];
    ThenNone(NextInputs(buf, off, n.value, recognised));
    while off <= |buf| && |inputs| < n.value
      invariant |inputs| <= n.value
      invariant Then(inputs, NextInputs(buf, off, n.value - |inputs|, recognised))
             == NextInputs(buf, o0, n.value, recognised)
      decreases n.value - |inputs|
    {
      var r := NextInput(buf, off, recognised);
      if r.None? {
        return Overread;
      }
      ThenOne(inputs, r.value.0, NextInputs(buf, r.value.1, n.value - |inputs| - 1, recognised));
      inputs, off := inputs + [r.value.0], r.value.1;
    }
    assert inputs + [] == inputs;
    var m := ReadVarInt(buf, off);
    off := (off + m.len) % LIMIT;
    ghost var o1 := off;
    var outputs: seq<TxOut> := [];
    ThenNone(NextOutputs(buf, off, m.value));
    while off <= |buf| && |outputs| < m.value
      invariant |outputs| <= m.value
      invariant Then(outputs, NextOutputs(buf, off, m.value - |outputs|)) == NextOutputs(buf, o1, m.value)
      decreases m.value - |outputs|
    {
      var r := NextOutput(buf, off);
      if r.None? {
        return Overread;
      }
      ThenOne(outputs, r.value.0, NextOutputs(buf, r.value.1, m.value - |outputs| - 1));
      outputs, off := outputs + [r.value.0], r.value.1;
    }
    assert outputs + [] == outputs;
    if Overreads(off, 4, |buf|) {
      return Overread;
    }
    var lockTime := ReadWord(buf, off);
    off := (off + 4) % LIMIT;
    p := if n.value == 0 || off > |buf| then Nothing
         else Parsed(Tx(version, Filled(inputs, n.value, ZERO_IN), Filled(outputs, m.value, ZERO_OUT), lockTime));
  }

  /** What is read after what has been read. */
  function Then<T>(done: seq<T>, more: Option<(seq<T>, nat)>): Option<(seq<T>, nat)> {
    if more.None? then None else Some((done + more.value.0, more.value.1))
  }

  lemma ThenNone<T>(more: Option<(seq<T>, nat)>)
    ensures Then([], more) == more
  {
    if more.Some? {
      assert [] + more.value.0 == more.value.0;
    }
  }

  lemma ThenOne<T>(done: seq<T>, x: T, more: Option<(seq<T>, nat)>)
    ensures Then(done, Then([x], more)) == Then(done + [x], more)
  {
    if more.Some? {
      assert done + ([x] + more.value.0) == (done + [x]) + more.value.0;
    }
  }

  method Size(tx: Tx) returns (size: nat)
    ensures size == TxSize(tx)
  {
    size := 8 + VarIntSize(|tx.inputs|) + VarIntSize(|tx.outputs|);
    var i: nat := 0;
    while i < |tx.inputs|
      invariant i <= |tx.inputs|
      invariant size + InputsSize(tx.inputs[i..])
             == 8 + VarIntSize(|tx.inputs|) + VarIntSize(|tx.outputs|) + InputsSize(tx.inputs)
    {
      assert tx.inputs[i..][1..] == tx.inputs[i + 1..];
      var input := tx.inputs[i];
      if input.signature.Bytes? {
        size := size + 32 + 4 + VarIntSize(|input.signature.bytes|) + |input.signature.bytes| + 4;
      } else {
        size := size + TX_INPUT_SIZE;
      }
      i := i + 1;
    }
    i := 0;
    while i < |tx.outputs|
      invariant i <= |tx.outputs| && size + OutputsSize(tx.outputs[i..]) == TxSize(tx)
    {
      assert tx.outputs[i..][1..] == tx.outputs[i + 1..];
      size := size + 8 + VarIntSize(|tx.outputs[i].script|) + |tx.outputs[i].script|;
      i := i + 1;
    }
  }
}
