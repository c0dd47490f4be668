/** A buffer that bytes are read from at the front and written to at the back: a queue. */
module ByteBuffer {
  import opened Wrappers
  import opened Bytes

  const DEFAULT_SIZE := 4096

  function Max(a: nat, b: nat): nat { if a > b then a else b }

  /** A number in network byte order: the high byte comes first. */
  function BigEndian(v: nat, n: nat): (b: seq<Byte>)
    ensures |b| == n
  {
    if n == 0 then [] else BigEndian(v / 256, n - 1) + [v % 256]
  }

  function Number(b: seq<Byte>): nat {
    if b == [] then 0
    else
      var last: int := b[|b| - 1];
      256 * Number(b[..|b| - 1]) + last
  }

  /** Numbers that fit are read as they were written, and nothing else is. */
  lemma {:induction false} NumberReadsBack(v: nat, n: nat)
    requires v < Power256(n)
    ensures Number(BigEndian(v, n)) == v
  {
    if n > 0 {
      NumberReadsBack(v / 256, n - 1);
      assert BigEndian(v, n)[..n - 1] == BigEndian(v / 256, n - 1);
    }
  }

  lemma {:induction false} BytesReadBack(b: seq<Byte>)
    ensures Number(b) < Power256(|b|) && BigEndian(Number(b), |b|) == b
  {
    if b != [] {
      var front, last: int := b[..|b| - 1], b[|b| - 1];
      BytesReadBack(front);
      assert Number(b) / 256 == Number(front) && Number(b) % 256 == last;
      assert b == front + [b[|b| - 1]];
    }
  }

  /** The value of bytes by their places: the first one counts most. */
  function PlaceValue(b: seq<Byte>): nat {
    if b == [] then 0
    else
      var first: int := b[0];
      first * Power256(|b| - 1) + PlaceValue(b[1..])
  }

  /** A number is read as network byte order has it. */
  lemma {:induction false} NumberIsPlaceValue(b: seq<Byte>)
    ensures Number(b) == PlaceValue(b)
  {
    if |b| == 1 {
      assert b[..0] == [] && b[1..] == [];
    } else if |b| > 1 {
      var first: int, last: int, front := b[0], b[|b| - 1], b[..|b| - 1];
      NumberIsPlaceValue(front);
      NumberIsPlaceValue(b[1..]);
      NumberIsPlaceValue(front[1..]);
      assert b[1..][..|b| - 2] == front[1..] && b[1..][|b| - 2] == b[|b| - 1];
      Regroups(first, Power256(|b| - 2), PlaceValue(front[1..]), last);
    }
  }

  lemma Regroups(a: int, p: int, r: int, d: int)
    ensures 256 * (a * p + r) + d == a * (256 * p) + (256 * r + d)
  {
  }

  class ByteBuffer {
    var bytes: array<Byte>
    var start: nat
    var end: nat

    ghost predicate Valid()
      reads this
    {
      start <= end <= bytes.Length
    }

    ghost function Contents(): seq<Byte>
      reads this, bytes
      requires Valid()
    {
      bytes[start..end]
    }

    constructor ()
      ensures Valid() && fresh(bytes) && Contents() == []
    {
      start, end, bytes := 0, 0, new Byte[DEFAULT_SIZE];
    }

    constructor Of(data: seq<Byte>)
      ensures Valid() && fresh(bytes) && Contents() == data
    {
      start, end, bytes := 0, |data|, new Byte[|data|](i requires 0 <= i < |data| => data[i]);
    }

    function Length(): nat
      reads this
      requires Valid()
    {
      end - start
    }

    function Capacity(): nat
      reads this
      requires Valid()
    {
      bytes.Length - start
    }

    /** Takes bytes from the front, if there are as many; otherwise none. */
    method ReadBytes(len: nat) returns (r: Option<seq<Byte>>)
      requires Valid()
      modifies this`start
      ensures Valid()
      ensures if len <= |old(Contents())| then r == Some(old(Contents())[..len]) && Contents() == old(Contents())[len..]
              else r == None && Contents() == old(Contents())
    {
      if len > Length() {
        return None;
      }
      r := Some(bytes[start..start + len]);
      assert bytes[start..start + len] == Contents()[..len] && bytes[start + len..end] == Contents()[len..];
      start := start + len;
    }

    /** Appends bytes, in a larger buffer if need be. */
    method WriteBytes(data: seq<Byte>)
      requires Valid()
      modifies this, bytes
      ensures Valid() && Contents() == old(Contents()) + data
      ensures bytes == old(bytes) || fresh(bytes)
    {
      if Length() + |data| > Capacity() {
        Resize(Length() + |data|);
      }
      CopyInto(bytes, end, data);
      end := end + |data|;
    }

    /** A larger buffer is larger by half at least; a smaller one cuts the contents off. */
    method Resize(size: nat)
      requires Valid()
      modifies this
      ensures Valid() && fresh(bytes) && start == 0
      ensures bytes.Length == if size > old(bytes.Length) then Max(size, 3 * old(bytes.Length) / 2) else size
      ensures Contents() == old(Contents())[..Min(|old(Contents())|, bytes.Length)]
    {
      var newSize := size;
      if newSize > bytes.Length {
        newSize := Max(newSize, 3 * bytes.Length / 2);
      }
      var len := Min(end - start, newSize);
      var newBytes := new Byte[newSize];
      assert bytes[start..start + len] == Contents()[..len];
      CopyInto(newBytes, 0, bytes[start..start + len]);
      start, end, bytes := 0, len, newBytes;
      assert newBytes[0..len] == newBytes[..len];
    }

    /** Drops bytes from the front, if there are as many, and moves the others up. */
    method Shift(size: nat)
      requires Valid()
      modifies this, bytes
      ensures Valid() && bytes == old(bytes)
      ensures Contents() == if size <= |old(Contents())| then old(Contents())[size..] else old(Contents())
      ensures size <= |old(Contents())| ==> start == 0
    {
      if size > Length() {
        return;
      }
      ghost var was := Contents();
      var from := start + size;
      end := Length() - size;
      MoveDown(bytes, from, end);
      start := 0;
      assert bytes[0..end] == bytes[..end] == was[size..];
    }

    method WriteNumber(v: nat, n: nat)
      requires Valid()
      modifies this, bytes
      ensures Valid() && Contents() == old(Contents()) + BigEndian(v, n)
      ensures bytes == old(bytes) || fresh(bytes)
    {
      WriteBytes(BigEndian(v, n));
    }

    method ReadNumber(n: nat) returns (r: Option<nat>)
      requires Valid()
      modifies this`start
      ensures Valid()
      ensures if n <= |old(Contents())| then r == Some(Number(old(Contents())[..n])) && Contents() == old(Contents())[n..]
              else r == None && Contents() == old(Contents())
    {
      var b := ReadBytes(n);
      r := if b.Some? then Some(Number(b.value)) else None;
    }
  }

  // ---------------------------------------------------------------- any mix of calls

  datatype Operation =
    | Write(data: seq<Byte>)
    | WriteInt(v: nat, width: nat)
    | Read(len: nat)
    | ReadInt(width: nat)
    | Drop(n: nat)
    | Grow(size: nat)

  /** What a queue of bytes holds after an operation. */
  function After(q: seq<Byte>, op: Operation): seq<Byte> {
    match op
    case Write(data) => q + data
    case WriteInt(v, width) => q + BigEndian(v, width)
    case Read(n) => if n <= |q| then q[n..] else q
    case ReadInt(n) => if n <= |q| then q[n..] else q
    case Drop(n) => if n <= |q| then q[n..] else q
    case Grow(size) => if size < |q| then q[..size] else q
  }

  /** What it gives out. */
  function Given(q: seq<Byte>, op: Operation): seq<Byte> {
    match op
    case Read(n) => if n <= |q| then q[..n] else []
    case ReadInt(n) => if n <= |q| then BigEndian(Number(q[..n]), n) else []
    case _ => []
  }

  function AfterAll(q: seq<Byte>, ops: seq<Operation>): seq<Byte> {
    if ops == [] then q else After(AfterAll(q, ops[..|ops| - 1]), ops[|ops| - 1])
  }

  function GivenByAll(q: seq<Byte>, ops: seq<Operation>): seq<Byte> {
    if ops == [] then []
    else GivenByAll(q, ops[..|ops| - 1]) + Given(AfterAll(q, ops[..|ops| - 1]), ops[|ops| - 1])
  }

  /** First in, first out: without drops and cuts, what was held and written is what was given
      out and is still held, in that order. */
  lemma {:induction false} FirstInFirstOut(q: seq<Byte>, ops: seq<Operation>)
    requires forall op :: op in ops ==> !op.Drop? && !op.Grow?
    ensures GivenByAll(q, ops) + AfterAll(q, ops) == q + WrittenByAll(ops)
  {
    hide Given, After, Written;
    if ops != [] {
      var front, op := ops[..|ops| - 1], ops[|ops| - 1];
      FirstInFirstOut(q, front);
      assert op in ops && forall o :: o in front ==> o in ops;
      var now := AfterAll(q, front);
      GivenAndKept(now, op);
      var given, written := GivenByAll(q, front), WrittenByAll(front);
      assert given + Given(now, op) + After(now, op) == given + (Given(now, op) + After(now, op));
      assert given + (now + Written(op)) == (given + now) + Written(op);
      assert q + written + Written(op) == q + (written + Written(op));
    }
  }

  lemma GivenAndKept(now: seq<Byte>, op: Operation)
    requires !op.Drop? && !op.Grow?
    ensures Given(now, op) + After(now, op) == now + Written(op)
  {
    if op.ReadInt? && op.width <= |now| {
      BytesReadBack(now[..op.width]);
      assert now[..op.width] + now[op.width..] == now;
    }
  }

  function Written(op: Operation): seq<Byte> {
    match op
    case Write(data) => data
    case WriteInt(v, width) => BigEndian(v, width)
    case _ => []
  }

  function WrittenByAll(ops: seq<Operation>): seq<Byte> {
    if ops == [] then [] else WrittenByAll(ops[..|ops| - 1]) + Written(ops[|ops| - 1])
  }

  method Apply(b: ByteBuffer, op: Operation) returns (given: seq<Byte>)
    requires b.Valid()
    modifies b, b.bytes
    ensures b.Valid() && (b.bytes == old(b.bytes) || fresh(b.bytes))
    ensures b.Contents() == After(old(b.Contents()), op) && given == Given(old(b.Contents()), op)
  {
    given := [];
    match op
    case Write(data) =>
      b.WriteBytes(data);
    case WriteInt(v, width) =>
      b.WriteNumber(v, width);
    case Read(n) =>
      var r := b.ReadBytes(n);
      given := if r.Some? then r.value else [];
    case ReadInt(n) =>
      var r := b.ReadNumber(n);
      given := if r.Some? then BigEndian(r.value, n) else [];
    case Drop(n) =>
      b.Shift(n);
    case Grow(size) =>
      b.Resize(size);
  }

  /** Any mix of operations, from an empty buffer, does what a queue does. */
  method Replay(ops: seq<Operation>) returns (b: ByteBuffer, given: seq<Byte>)
    ensures b.Valid() && b.Contents() == AfterAll([], ops) && given == GivenByAll([], ops)
  {
    b := new ByteBuffer();
    given := [];
    var i := 0;
    while i < |ops|
      invariant i <= |ops| && b.Valid() && fresh(b) && fresh(b.bytes)
      invariant b.Contents() == AfterAll([], ops[..i]) && given == GivenByAll([], ops[..i])
    {
      assert ops[..i + 1][..i] == ops[..i];
      var more := Apply(b, ops[i]);
      given := given + more;
      i := i + 1;
    }
    assert ops[..i] == ops;
  }
}
