/**
  Unsigned LEB128, three times: the Rust reader of contract metadata, the strict Python reader of
  exports and the Python reader of imports, against the grammar of the WebAssembly Core
  Specification 1.0, section 5.2.2, and against the hand-written printer.
*/
module Leb128 {
  import opened Prelude

  function Pow2(n: nat): nat { if n == 0 then 1 else 2 * Pow2(n - 1) }

  datatype Read = Read(value: nat, rest: seq<byte>)

  /**
    The grammar's `uN`: a byte below 128 that fits in N bits, or a byte from 128 up, seven of
    whose bits are used, followed by a `u(N-7)`.
  */
  function Grammar(bits: nat, bytes: seq<byte>): Option<Read> {
    if bytes == [] then None
    else if bytes[0] < 128 then
      if bytes[0] < Pow2(bits) then Some(Read(bytes[0], bytes[1..])) else None
    else if bits <= 7 then None
    else
      match Grammar(bits - 7, bytes[1..])
      case None => None
      case Some(tail) => Some(Read(bytes[0] - 128 + 128 * tail.value, tail.rest))
  }

  /** `d << 7 * step`. */
  function Scaled(step: nat, d: nat): nat { if step == 0 then d else 128 * Scaled(step - 1, d) }

  /** The value of the first `step` bytes, put under what the rest of the bytes say. */
  function Onto(value: nat, step: nat, tail: Option<Read>): Option<Read> {
    match tail
    case None => None
    case Some(t) => Some(Read(value + Scaled(step, t.value), t.rest))
  }

  lemma {:induction false} ScaledSplits(step: nat, d: nat, t: nat)
    ensures Scaled(step, d + 128 * t) == Scaled(step, d) + Scaled(step + 1, t)
  {
    if step > 0 { ScaledSplits(step - 1, d, t); }
  }

  lemma ScaledIs(step: nat, d: nat)
    requires step <= 5
    ensures Scaled(step, d)
         == match step {
              case 0 => d case 1 => 128 * d case 2 => 0x4000 * d case 3 => 0x20_0000 * d case 4 => 0x1000_0000 * d
              case _ => 0x8_0000_0000 * d }
  {
    if step > 1 {
      assert Scaled(1, d) == 128 * d;
      assert Scaled(2, d) == 128 * Scaled(1, d);
      if step > 2 { assert Scaled(3, d) == 128 * Scaled(2, d); }
      if step > 3 { assert Scaled(4, d) == 128 * Scaled(3, d); }
      if step > 4 { assert Scaled(5, d) == 128 * Scaled(4, d); }
    }
  }

  lemma Powers()
    ensures Pow2(4) == 16 && Pow2(7) == 128 && Pow2(11) == 0x800 && Pow2(14) == 0x4000 && Pow2(18) == 0x4_0000
    ensures Pow2(21) == 0x20_0000 && Pow2(25) == 0x200_0000 && Pow2(28) == 0x1000_0000 && Pow2(32) == 0x1_0000_0000
    ensures Pow2(35) == 0x8_0000_0000
  {
    assert Pow2(8) == 256;
    assert Pow2(12) == 0x1000;
    assert Pow2(16) == 0x1_0000;
    assert Pow2(20) == 0x10_0000;
    assert Pow2(24) == 0x100_0000;
    assert Pow2(30) == 0x4000_0000;
  }

  /** After `step` continuation bytes: the value so far, and what is left to say. */
  ghost predicate Peeled(bits: nat, bytes: seq<byte>, step: nat, value: nat) {
    && bits >= 28 && step <= 5 && step <= |bytes|
    && value < Scaled(step, 1)
    && Grammar(bits, bytes)
       == if step < 5 then Onto(value, step, Grammar(bits - 7 * step, bytes[step..])) else None
  }

  /** A continuation byte moves its seven bits from what is left into the value so far. */
  lemma MoveBits(value: nat, step: nat, left: nat, here: seq<byte>)
    requires here != [] && here[0] >= 128
    ensures Onto(value, step, Grammar(left, here))
            == if left <= 7 then None
               else Onto(value + Scaled(step, here[0] - 128), step + 1, Grammar(left - 7, here[1..]))
  {
    if left > 7 && Grammar(left - 7, here[1..]).Some? {
      ScaledSplits(step, here[0] - 128, Grammar(left - 7, here[1..]).value.value);
    }
  }

  /** The grammar's side of a continuation byte. */
  lemma ContinueGrammar(bits: nat, bytes: seq<byte>, step: nat, value: nat)
    requires bits == 32 || bits == 35
    requires step < 5 && step < |bytes| && bytes[step] >= 128
    ensures Onto(value, step, Grammar(bits - 7 * step, bytes[step..]))
         == if step == 4 then None
            else Onto(value + Scaled(step, bytes[step] - 128), step + 1,
                      Grammar(bits - 7 * (step + 1), bytes[step + 1..]))
  {
    var here := bytes[step..];
    assert here[0] == bytes[step] && here[1..] == bytes[step + 1..];
    MoveBits(value, step, bits - 7 * step, here);
  }

  lemma ContinueReading(bits: nat, bytes: seq<byte>, step: nat, value: nat)
    requires bits == 32 || bits == 35
    requires step < 5 && step < |bytes| && Peeled(bits, bytes, step, value) && bytes[step] >= 128
    ensures Peeled(bits, bytes, step + 1, value + Scaled(step, bytes[step] % 128))
  {
    assert bytes[step] % 128 == bytes[step] - 128;
    ContinueGrammar(bits, bytes, step, value);
    ScaledBelow(step, bytes[step] - 128);
  }

  lemma {:induction false} ScaledBelow(step: nat, d: nat)
    requires d < 128
    ensures Scaled(step, d) + Scaled(step, 1) <= Scaled(step + 1, 1)
  {
    if step > 0 { ScaledBelow(step - 1, d); }
  }

  lemma FinishReading(bits: nat, bytes: seq<byte>, step: nat, value: nat)
    requires bits == 32 || bits == 35
    requires step < 5 && step < |bytes| && Peeled(bits, bytes, step, value) && bytes[step] < 128
    ensures var b := bytes[step]; var v := value + Scaled(step, b);
            && Grammar(bits, bytes)
               == (if bits == 35 || step < 4 || b < 16 then Some(Read(v, bytes[step + 1..])) else None)
            && (v < U32_LIMIT <==> step < 4 || b < 16)
  {
    var b, left := bytes[step], bits - 7 * step;
    var here, tail := bytes[step..], bytes[step + 1..];
    assert here[0] == b && here[1..] == tail;
    BitsLeft(bits, step);
    assert Grammar(left, here) == if b < Pow2(left) then Some(Read(b, tail)) else None;
    ScaledIs(step, 1);
    ScaledIs(step, b);
  }

  // ---------- A loop over the bytes ----------

  /** The bits that the first `step` bytes carry. */
  function Carried(bytes: seq<byte>, step: nat): nat
    requires step <= |bytes|
  {
    if step == 0 then 0 else Carried(bytes, step - 1) + Scaled(step - 1, bytes[step - 1] % 128)
  }

  /** A loop over the bytes has seen `step` of them, each announcing another. */
  ghost predicate Reading(bytes: seq<byte>, step: nat, value: nat) {
    && step <= |bytes| && (forall i :: 0 <= i < step ==> bytes[i] >= 128)
    && value == Carried(bytes, step)
  }

  lemma {:induction false} ReadingPeels(bits: nat, bytes: seq<byte>, step: nat, value: nat)
    requires (bits == 32 || bits == 35) && step <= 5 && Reading(bytes, step, value)
    ensures Peeled(bits, bytes, step, value)
  {
    if step > 0 {
      ReadingPeels(bits, bytes, step - 1, Carried(bytes, step - 1));
      ContinueReading(bits, bytes, step - 1, Carried(bytes, step - 1));
    }
  }

  /** The byte that announces no other ends the number; with 32 bits a fifth byte must be below 16. */
  lemma LastByte(bits: nat, bytes: seq<byte>, step: nat, value: nat)
    requires (bits == 32 || bits == 35) && step < 5 && step < |bytes| && Reading(bytes, step, value)
    requires bytes[step] < 128
    ensures var v := value + Scaled(step, bytes[step]);
            && Grammar(bits, bytes)
               == (if bits == 35 || step < 4 || bytes[step] < 16 then Some(Read(v, bytes[step + 1..])) else None)
            && (v < U32_LIMIT <==> step < 4 || bytes[step] < 16)
  {
    ReadingPeels(bits, bytes, step, value);
    FinishReading(bits, bytes, step, value);
  }

  /** Running out of bytes, or a fifth byte that announces another, is no number. */
  lemma NoLastByte(bits: nat, bytes: seq<byte>, step: nat, value: nat)
    requires (bits == 32 || bits == 35) && step <= 5 && Reading(bytes, step, value) && (step == |bytes| || step == 5)
    ensures Grammar(bits, bytes) == None
  {
    ReadingPeels(bits, bytes, step, value);
  }

  lemma BitsLeft(bits: nat, step: nat)
    requires bits == 32 || bits == 35
    requires step < 5
    ensures if bits == 35 || step < 4 then Pow2(bits - 7 * step) >= 128 else Pow2(bits - 7 * step) == 16
  {
    Powers();
  }

  /** `read_uleb128`: at most five bytes into a u64, then narrowed to 32 bits. */
  method ReadUleb128(bytes: seq<byte>) returns (r: Option<Read>)
    ensures r == Grammar(32, bytes)
  {
    var value: nat := 0;
    var index := 0;
    while index < 5 && index < |bytes|
      invariant index <= 5 && Reading(bytes, index, value)
    {
      var byte := bytes[index];
      if byte < 128 { LastByte(32, bytes, index, value); }
      // The seven payload bits land on bits the value does not use yet, so `|` is `+`.
      value := value + Scaled(index, byte % 128);
      if byte < 128 {
        if value < U32_LIMIT {
          return Some(Read(value, bytes[index + 1..]));
        }
        return None;
      }
      index := index + 1;
    }
    NoLastByte(32, bytes, index, value);
    return None;
  }

  datatype WasmError = Truncated | Overflow | Unterminated | Malformed

  /** The cursor of the export checker. */
  class Reader {
    const data: seq<byte>
    var pos: nat

    ghost predicate Valid()
      reads this
    {
      pos <= |data|
    }

    constructor (data: seq<byte>)
      ensures Valid() && this.data == data && pos == 0
    {
      this.data := data;
      pos := 0;
    }

    method Take(count: nat) returns (r: Result<seq<byte>, WasmError>)
      requires Valid()
      modifies this
      ensures Valid()
      ensures if old(pos) + count <= |data| then r == Ok(data[old(pos)..old(pos) + count]) && pos == old(pos) + count
              else r.Err? && pos == old(pos)
    {
      var end := pos + count;
      if end > |data| {
        return Err(Truncated);
      }
      r := Ok(data[pos..end]);
      pos := end;
    }

    method Byte() returns (r: Result<byte, WasmError>)
      requires Valid()
      modifies this
      ensures Valid()
      ensures if old(pos) < |data| then r == Ok(data[old(pos)]) && pos == old(pos) + 1 else r.Err? && pos == old(pos)
    {
      var taken := Take(1);
      r := if taken.Err? then Err(taken.error) else Ok(taken.value[0]);
    }

    /** The strict reader: the fifth byte may use only the four bits a u32 has left. */
    method U32() returns (r: Result<nat, WasmError>)
      requires Valid()
      modifies this
      ensures Valid()
      ensures match Grammar(32, data[old(pos)..])
              case None => r.Err?
              case Some(read) => r == Ok(read.value) && data[pos..] == read.rest
    {
      var value: nat := 0;
      ghost var bytes := data[pos..];
      for step := 0 to 5
        invariant Valid() && pos == old(pos) + step
        invariant Reading(bytes, step, value)
      {
        assert |bytes| == |data| - old(pos);
        var next := Byte();
        if next.Err? {
          NoLastByte(32, bytes, step, value);
          return Err(Truncated);
        }
        var byte := next.value;
        assert bytes[step] == byte && bytes[step + 1..] == data[pos..];
        if byte < 128 {
          LastByte(32, bytes, step, value);
        } else if step == 4 {
          NoLastByte(32, bytes, 5, value + Scaled(step, byte % 128));
        }
        if step == 4 && byte > 0x0F {
          return Err(Overflow);
        }
        value := value + Scaled(step, byte % 128);
        if byte < 128 {
          return Ok(value);
        }
      }
      NoLastByte(32, bytes, 5, value);
      return Err(Unterminated);
    }
  }

  /** `leb_u32` of the import checker: five bytes, no check that the value fits in 32 bits. */
  method LebU32(data: seq<byte>, start: nat) returns (r: Result<(nat, nat), WasmError>)
    requires start <= |data|
    ensures match Grammar(35, data[start..])
            case None => r.Err?
            case Some(read) => r.Ok? && r.value.0 == read.value && r.value.1 <= |data| && data[r.value.1..] == read.rest
  {
    var pos := start;
    var value: nat := 0;
    ghost var bytes := data[start..];
    for step := 0 to 5
      invariant pos == start + step <= |data|
      invariant Reading(bytes, step, value)
    {
      assert |bytes| == |data| - start;
      if pos >= |data| {
        NoLastByte(35, bytes, step, value);
        return Err(Truncated);
      }
      var byte := data[pos];
      assert bytes[step] == byte && bytes[step + 1..] == data[pos + 1..];
      if byte < 128 { LastByte(35, bytes, step, value); }
      value := value + Scaled(step, byte % 128);
      pos := pos + 1;
      if byte < 128 {
        return Ok((value, pos));
      }
    }
    NoLastByte(35, bytes, 5, value);
    return Err(Unterminated);
  }

  // ---------- What the readers agree on ----------

  /** A reading consumes at least one byte and leaves a suffix. */
  lemma {:induction false} ReadsPrefix(bits: nat, bytes: seq<byte>) returns (n: nat)
    requires Grammar(bits, bytes).Some?
    ensures 0 < n <= |bytes| && bytes[n..] == Grammar(bits, bytes).value.rest && 7 * (n - 1) <= bits
  {
    if bytes[0] < 128 {
      n := 1;
    } else {
      n := ReadsPrefix(bits - 7, bytes[1..]);
      n := n + 1;
      assert bytes[1..][n - 1..] == bytes[n..];
    }
  }

  /** The consumed bytes alone read as the same value. */
  lemma {:induction false} PrefixReads(bits: nat, bytes: seq<byte>, n: nat)
    requires Grammar(bits, bytes).Some? && 0 < n <= |bytes| && bytes[n..] == Grammar(bits, bytes).value.rest
    ensures Grammar(bits, bytes[..n]) == Some(Read(Grammar(bits, bytes).value.value, []))
  {
    if bytes[0] < 128 {
      assert bytes[..n][1..] == [];
    } else {
      assert bytes[1..][n - 1..] == bytes[n..];
      var m := ReadsPrefix(bits - 7, bytes[1..]);
      assert |bytes[1..][m..]| == |bytes[n..]|;
      PrefixReads(bits - 7, bytes[1..], n - 1);
      assert bytes[..n][1..] == bytes[1..][..n - 1];
    }
  }

  /** More bits read the same value, and fewer bits read it exactly when it fits. */
  lemma {:induction false} WiderAgrees(bits: nat, extra: nat, bytes: seq<byte>)
    requires Grammar(bits + extra, bytes).Some?
    requires extra <= 3 && (bits + extra) % 7 == 0 && bits > 0
    ensures Grammar(bits, bytes) == if Grammar(bits + extra, bytes).value.value < Pow2(bits)
                                    then Grammar(bits + extra, bytes) else None
  {
    if bytes[0] >= 128 {
      var tail := Grammar(bits + extra - 7, bytes[1..]).value;
      assert bits > 7;
      WiderAgrees(bits - 7, extra, bytes[1..]);
      assert Pow2(bits) == 128 * Pow2(bits - 7) by { Shift(bits); }
      assert bytes[0] - 128 + 128 * tail.value < 128 * Pow2(bits - 7) <==> tail.value < Pow2(bits - 7);
    }
  }

  lemma {:induction false} NarrowerAgrees(bits: nat, extra: nat, bytes: seq<byte>)
    requires Grammar(bits, bytes).Some?
    ensures Grammar(bits + extra, bytes) == Grammar(bits, bytes)
  {
    if bytes[0] >= 128 {
      NarrowerAgrees(bits - 7, extra, bytes[1..]);
    } else {
      PowerGrows(bits, extra);
    }
  }

  lemma {:induction false} PowerGrows(bits: nat, extra: nat)
    ensures Pow2(bits) <= Pow2(bits + extra)
  {
    if extra > 0 { PowerGrows(bits, extra - 1); }
  }

  lemma Shift(bits: nat)
    requires bits >= 7
    ensures Pow2(bits) == 128 * Pow2(bits - 7)
  {
    assert Pow2(bits) == 2 * Pow2(bits - 1) == 4 * Pow2(bits - 2) == 8 * Pow2(bits - 3) == 16 * Pow2(bits - 4);
    assert Pow2(bits - 4) == 2 * Pow2(bits - 5) == 4 * Pow2(bits - 6) == 8 * Pow2(bits - 7);
  }

  /**
    The two strict readers and the loose one agree wherever the value fits in 32 bits; beyond that
    the loose one alone accepts, and only by a fifth byte from 0x10 to 0x7F.
  */
  lemma LooseReaderExceeds(bytes: seq<byte>)
    ensures Grammar(32, bytes).Some? ==> Grammar(35, bytes) == Grammar(32, bytes)
    ensures Grammar(35, bytes).Some? && Grammar(32, bytes).None? ==>
            && Grammar(35, bytes).value.value >= U32_LIMIT
            && |bytes| >= 5 && 0x10 <= bytes[4] < 0x80 && Grammar(35, bytes).value.rest == bytes[5..]
  {
    Powers();
    if Grammar(32, bytes).Some? {
      NarrowerAgrees(32, 3, bytes);
    } else if Grammar(35, bytes).Some? {
      WiderAgrees(32, 3, bytes);
      FifthByte(bytes);
    }
  }

  /** A 35-bit reading that exceeds 28 bits used its fifth byte. */
  lemma FifthByte(bytes: seq<byte>)
    requires Grammar(35, bytes).Some? && Grammar(32, bytes).None?
    ensures |bytes| >= 5 && 0x10 <= bytes[4] < 0x80 && Grammar(35, bytes).value.rest == bytes[5..]
  {
    Powers();
    assert bytes[0] >= 128;
    var b1 := bytes[1..];
    assert Grammar(28, b1).Some? && Grammar(25, b1).None? && b1[0] >= 128;
    var b2 := b1[1..];
    assert Grammar(21, b2).Some? && Grammar(18, b2).None? && b2[0] >= 128;
    var b3 := b2[1..];
    assert Grammar(14, b3).Some? && Grammar(11, b3).None? && b3[0] >= 128;
    var b4 := b3[1..];
    assert Grammar(7, b4).Some? && Grammar(4, b4).None?;
    assert b4[0] == bytes[4] && b4[1..] == bytes[5..];
  }

  // ---------- The printer ----------

  function Printed(value: nat): (bytes: seq<byte>)
    ensures bytes != []
  {
    if value < 128 then [value] else [value % 128 + 128] + Printed(value / 128)
  }

  /** `uleb128`: seven bits at a time, the high bit set on all but the last. */
  method Uleb128(value: nat) returns (out: seq<byte>)
    ensures out == Printed(value)
  {
    out := [];
    var left := value;
    while true
      invariant out + Printed(left) == Printed(value)
      decreases left
    {
      var byte := left % 128;
      var next := left / 128;
      if next == 0 {
        return out + [byte];
      }
      assert out + Printed(left) == out + [byte + 128] + Printed(next);
      out := out + [byte + 128];
      left := next;
    }
  }

  /** Reading what was printed gives the value back and leaves what followed it. */
  lemma {:induction false} PrintedReads(bits: nat, value: nat, tail: seq<byte>)
    requires value < Pow2(bits)
    ensures Grammar(bits, Printed(value) + tail) == Some(Read(value, tail))
  {
    var bytes := Printed(value) + tail;
    if value < 128 {
      assert bytes[1..] == tail;
    } else {
      SmallPowers(bits);
      Shift(bits);
      assert bytes[1..] == Printed(value / 128) + tail;
      PrintedReads(bits - 7, value / 128, tail);
    }
  }

  lemma SmallPowers(bits: nat)
    requires Pow2(bits) > 128
    ensures bits > 7
  {
    if bits <= 7 {
      PowerGrows(bits, 7 - bits);
      Powers();
    }
  }
}
