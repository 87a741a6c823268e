/**
 The ring buffer of src/runtime/network/net_buffer.c against a bounded queue of bytes.
 */
module NetBuffer {
  import opened Basics
  import opened Conservation

  // ----- The bounded queue

  datatype Queue = Queue(contents: seq<Byte>, overflow: bool)

  function Written(q: Queue, size: nat, bytes: seq<Byte>): (Queue, bool) {
    if bytes == [] then (q, false)
    else if |q.contents| + |bytes| > size then (q.(overflow := true), false)
    else (q.(contents := q.contents + bytes), true)
  }

  function Front(q: Queue, length: nat): Option<seq<Byte>> {
    if 0 < length <= |q.contents| then Some(q.contents[..length]) else None
  }

  function Taken(q: Queue, length: nat): Queue {
    if 0 < length <= |q.contents| then q.(contents := q.contents[length..]) else q
  }

  datatype Op = Write(bytes: seq<Byte>) | Read(length: nat) | Peek(length: nat) | Reset

  function Step(q: Queue, size: nat, op: Op): Queue {
    match op
    case Write(bytes) => Written(q, size, bytes).0
    case Read(length) => Taken(q, length)
    case Peek(_) => q
    case Reset => Queue([], false)
  }

  /** The bytes a call puts in, and the bytes that leave: read, or thrown away by a reset. */
  function InOf(q: Queue, size: nat, op: Op): seq<Byte> {
    if op.Write? && Written(q, size, op.bytes).1 then op.bytes else []
  }

  function OutOf(q: Queue, op: Op): seq<Byte> {
    match op
    case Read(length) => if Front(q, length).Some? then Front(q, length).value else []
    case Reset => q.contents
    case _ => []
  }

  ghost function In(q: Queue, size: nat, ops: seq<Op>): seq<Byte>
    decreases |ops|
  {
    if ops == [] then [] else InOf(q, size, ops[0]) + In(Step(q, size, ops[0]), size, ops[1..])
  }

  ghost function Out(q: Queue, size: nat, ops: seq<Op>): seq<Byte>
    decreases |ops|
  {
    if ops == [] then [] else OutOf(q, ops[0]) + Out(Step(q, size, ops[0]), size, ops[1..])
  }

  ghost function Final(q: Queue, size: nat, ops: seq<Op>): Queue
    decreases |ops|
  {
    if ops == [] then q else Final(Step(q, size, ops[0]), size, ops[1..])
  }

  lemma StepConserves(q: Queue, size: nat, op: Op)
    requires |q.contents| <= size
    ensures q.contents + InOf(q, size, op) == OutOf(q, op) + Step(q, size, op).contents
    ensures |Step(q, size, op).contents| <= size
  {
  }

  /** In every run, what went in is what left followed by what is still there; nothing exceeds the size. */
  lemma {:induction false} NothingLostOrReordered(q: Queue, size: nat, ops: seq<Op>)
    requires |q.contents| <= size
    ensures q.contents + In(q, size, ops) == Out(q, size, ops) + Final(q, size, ops).contents
    ensures |Final(q, size, ops).contents| <= size
    decreases |ops|
  {
    if ops == [] {
      assert q.contents + [] == [] + q.contents;
    } else {
      var op, rest := ops[0], ops[1..];
      var q' := Step(q, size, op);
      StepConserves(q, size, op);
      NothingLostOrReordered(q', size, rest);
      Chained(q.contents, InOf(q, size, op), OutOf(q, op), q'.contents,
              In(q', size, rest), Out(q', size, rest), Final(q', size, rest).contents);
    }
  }

  /** Which calls are served: a write when there is room, a read or a peek when enough bytes are there. */
  lemma ServedIff(q: Queue, size: nat, bytes: seq<Byte>, length: nat)
    ensures Written(q, size, bytes).1 <==> 0 < |bytes| <= size - |q.contents|
    ensures Written(q, size, bytes).0.contents == q.contents + if 0 < |bytes| <= size - |q.contents| then bytes else []
    ensures Written(q, size, bytes).0.overflow <==> q.overflow || (bytes != [] && size < |q.contents| + |bytes|)
    ensures Front(q, length).Some? <==> 0 < length <= |q.contents|
    ensures Front(q, length).Some? ==> q.contents == Front(q, length).value + Taken(q, length).contents
    ensures Front(q, length).None? ==> Taken(q, length) == q
  {
    if Front(q, length).Some? {
      assert q.contents == q.contents[..length] + q.contents[length..];
    }
  }

  // ----- When the overflow flag is set

  /** Call `k` is a write for which there is no room at that time. */
  ghost predicate Overflows(q: Queue, size: nat, ops: seq<Op>, k: nat)
    requires k < |ops|
  {
    ops[k].Write? && ops[k].bytes != [] && size < |Final(q, size, ops[..k]).contents| + |ops[k].bytes|
  }

  ghost predicate NoReset(ops: seq<Op>, from: nat) {
    forall l :: from <= l < |ops| ==> ops[l] != Op.Reset
  }

  ghost predicate OverflowedSince(q: Queue, size: nat, ops: seq<Op>, k: nat) {
    k < |ops| && Overflows(q, size, ops, k) && NoReset(ops, k + 1)
  }

  lemma {:induction false} FinalMore(q: Queue, size: nat, ops: seq<Op>, op: Op)
    ensures Final(q, size, ops + [op]) == Step(Final(q, size, ops), size, op)
    decreases |ops|
  {
    if ops == [] {
      assert ops + [op] == [op] && [op][1..] == [];
    } else {
      assert (ops + [op])[0] == ops[0] && (ops + [op])[1..] == ops[1..] + [op];
      FinalMore(Step(q, size, ops[0]), size, ops[1..], op);
    }
  }

  /** After any run the flag is set exactly if a write found no room, or it was set before, and no reset came since. */
  lemma {:induction false} OverflowIff(q: Queue, size: nat, ops: seq<Op>)
    ensures Final(q, size, ops).overflow <==>
            (q.overflow && NoReset(ops, 0)) || exists k: nat :: OverflowedSince(q, size, ops, k)
    decreases |ops|
  {
    if ops != [] {
      var n := |ops| - 1;
      var before, op := ops[..n], ops[n];
      assert ops == before + [op];
      OverflowIff(q, size, before);
      FinalMore(q, size, before, op);
      SinceBefore(q, size, before, op);
      if Overflows(q, size, ops, n) {
        assert OverflowedSince(q, size, ops, n);
      }
    }
  }

  lemma SinceBefore(q: Queue, size: nat, before: seq<Op>, op: Op)
    ensures
      var ops := before + [op];
      && (NoReset(ops, 0) <==> NoReset(before, 0) && op != Op.Reset)
      && forall k: nat :: k < |before| ==>
           (OverflowedSince(q, size, ops, k) <==> OverflowedSince(q, size, before, k) && op != Op.Reset)
  {
    var ops := before + [op];
    assert ops[|before|] == op && forall l :: 0 <= l < |before| ==> ops[l] == before[l];
    forall k: nat | k < |before|
      ensures OverflowedSince(q, size, ops, k) <==> OverflowedSince(q, size, before, k) && op != Op.Reset
    {
      assert ops[..k] == before[..k];
    }
  }

  // ----- The ring

  class Ring {
    const data: array<Byte>
    var readIndex: nat
    var writeIndex: nat
    var count: nat
    var overflow: bool

    ghost predicate Valid()
      reads this, data
    {
      && 0 < data.Length && readIndex < data.Length && count <= data.Length
      && writeIndex == Wrap(readIndex + count, data.Length)
    }

    ghost function Value(): Queue
      reads this, data
      requires Valid()
    {
      Queue(Window(data[..], readIndex, count), overflow)
    }

    /** The write index is the read index plus the count, modulo the size. */
    lemma IndicesAgree()
      requires Valid()
      ensures writeIndex == (readIndex + count) % data.Length
    {
      WrapIsModulo(readIndex + count, data.Length);
    }

    /** NetBuffer_Init for a size that is not zero. */
    constructor (size: nat)
      requires 0 < size
      ensures Valid() && fresh(data) && data.Length == size && Value() == Queue([], false)
    {
      data := new Byte[size](_ => 0);
      readIndex, writeIndex, count, overflow := 0, 0, 0, false;
    }

    method Reset()
      requires Valid()
      modifies this, data
      ensures Valid() && Value() == Step(old(Value()), data.Length, Op.Reset)
    {
      readIndex, writeIndex, count, overflow := 0, 0, 0, false;
      forall i | 0 <= i < data.Length { data[i] := 0; }
    }

    function GetFree(): nat
      reads this
      requires count <= data.Length
    {
      data.Length - count
    }

    method Write(bytes: seq<Byte>) returns (ok: bool)
      requires Valid()
      modifies this, data
      ensures Valid() && (Value(), ok) == Written(old(Value()), data.Length, bytes)
      ensures readIndex == old(readIndex)
    {
      if |bytes| == 0 { return false; }
      if |bytes| > GetFree() {
        overflow := true;
        return false;
      }
      Append(bytes);
      return true;
    }

    method Append(bytes: seq<Byte>)
      requires Valid() && 0 < |bytes| <= data.Length - count
      modifies this`writeIndex, this`count, data
      ensures Valid() && Window(data[..], readIndex, count) == old(Window(data[..], readIndex, count)) + bytes
      ensures count == old(count) + |bytes|
    {
      StoredExtends(data[..], readIndex, count, bytes);
      CopyIn(bytes);
      writeIndex :=
        if writeIndex + |bytes| >= data.Length then writeIndex + |bytes| - data.Length else writeIndex + |bytes|;
      count := count + |bytes|;
    }

    /** One or two copies, depending on whether the bytes pass the end. */
    method CopyIn(bytes: seq<Byte>)
      requires Valid() && 0 < |bytes| <= data.Length - count
      modifies data
      ensures data[..] == Stored(old(data[..]), writeIndex, bytes)
    {
      var firstChunk := data.Length - writeIndex;
      if |bytes| <= firstChunk {
        forall i | 0 <= i < |bytes| { data[writeIndex + i] := bytes[i]; }
      } else {
        forall i | 0 <= i < firstChunk { data[writeIndex + i] := bytes[i]; }
        forall i | 0 <= i < |bytes| - firstChunk { data[i] := bytes[firstChunk + i]; }
      }
    }

    method Read(length: nat) returns (r: Option<seq<Byte>>)
      requires Valid()
      modifies this
      ensures Valid() && r == Front(old(Value()), length) && Value() == Taken(old(Value()), length)
    {
      r := Peek(length);
      if r.Some? {
        WindowSplits(data[..], readIndex, count, length);
        readIndex := if readIndex + length >= data.Length then readIndex + length - data.Length else readIndex + length;
        count := count - length;
      }
    }

    /** One or two copies, depending on whether the bytes pass the end; reading starts the same way. */
    method Peek(length: nat) returns (r: Option<seq<Byte>>)
      requires Valid()
      ensures r == Front(Value(), length)
    {
      if length == 0 || length > count { return None; }
      WindowSplits(data[..], readIndex, count, length);
      var firstChunk := data.Length - readIndex;
      if length <= firstChunk {
        r := Some(data[readIndex..readIndex + length]);
      } else {
        r := Some(data[readIndex..] + data[..length - firstChunk]);
      }
      assert r.value == Window(data[..], readIndex, length);
    }
  }

  /** One round back when the end is passed. */
  function Wrap(x: nat, size: nat): nat {
    if size <= x then x - size else x
  }

  lemma WrapIsModulo(x: nat, size: nat)
    requires x < 2 * size
    ensures Wrap(x, size) == x % size
  {
  }

  /** The `count` bytes from `from` on, round the end. */
  ghost function Window(data: seq<Byte>, from: nat, count: nat): (w: seq<Byte>)
    requires from < |data| && count <= |data|
    ensures |w| == count && forall i :: 0 <= i < count ==> w[i] == data[Wrap(from + i, |data|)]
  {
    seq(count, i requires 0 <= i < count => data[Wrap(from + i, |data|)])
  }

  /** How far index `k` lies behind `at`, round the end. */
  function Behind(k: nat, at: nat, size: nat): nat
    requires at <= size
  {
    if at <= k then k - at else k + size - at
  }

  /** The array after writing bytes from `at` on, round the end. */
  ghost function Stored(data: seq<Byte>, at: nat, bytes: seq<Byte>): (r: seq<Byte>)
    requires at < |data| && |bytes| <= |data|
    ensures |r| == |data|
  {
    seq(|data|, k requires 0 <= k < |data| =>
      if Behind(k, at, |data|) < |bytes| then bytes[Behind(k, at, |data|)] else data[k])
  }

  lemma BehindWindow(from: nat, count: nat, i: nat, size: nat)
    requires from < size && count <= size && i < size
    ensures
      var at := Wrap(from + count, size);
      at < size && Behind(Wrap(from + i, size), at, size) == if count <= i then i - count else i - count + size
  {
  }

  /** Bytes written behind the contents extend them and change nothing else. */
  lemma StoredExtends(data: seq<Byte>, from: nat, count: nat, bytes: seq<Byte>)
    requires from < |data| && 0 < |bytes| <= |data| - count && count <= |data|
    ensures Window(Stored(data, Wrap(from + count, |data|), bytes), from, count + |bytes|)
            == Window(data, from, count) + bytes
  {
    var r := Stored(data, Wrap(from + count, |data|), bytes);
    forall i | 0 <= i < count + |bytes|
      ensures Window(r, from, count + |bytes|)[i] == (Window(data, from, count) + bytes)[i]
    {
      BehindWindow(from, count, i, |data|);
    }
  }

  /** Reading round the end takes a prefix and leaves the rest. */
  lemma WindowSplits(data: seq<Byte>, from: nat, count: nat, length: nat)
    requires from < |data| && length <= count <= |data|
    ensures Window(data, from, length) == Window(data, from, count)[..length]
    ensures Window(data, Wrap(from + length, |data|), count - length) == Window(data, from, count)[length..]
  {
  }
}
