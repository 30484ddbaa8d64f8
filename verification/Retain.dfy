/**
 * One snapshot taken through the budget, and the readers over it, as the code runs
 * them (src/retain.rs:213-335, 569-623, 862-916; src/package.rs:410-453). One thread;
 * BudgetMachine has the interleavings.
 */
module Retain {
  import opened Options
  import opened BudgetMachine

  type Byte = bv8

  /** The shared totals. `highWater` is at least every total so far. */
  class DiskBudget {
    const limit: nat
    var used: nat
    var highWater: nat

    ghost predicate Valid() reads this { used <= limit && used <= highWater }

    constructor (limit: nat)
      ensures Valid() && this.limit == limit && used == 0 && highWater == 0
    {
      this.limit, used, highWater := limit, 0, 0;
    }
  }

  /** Bytes held against a budget. */
  class BudgetCharge {
    const budget: DiskBudget
    var bytes: nat

    ghost predicate Valid() reads this, budget { budget.Valid() && bytes <= budget.used }

    constructor (budget: DiskBudget)
      requires budget.Valid()
      ensures Valid() && this.budget == budget && bytes == 0
    {
      this.budget, bytes := budget, 0;
    }

    /** Grants as much of `want` as the budget has left. */
    method Grow(want: nat) returns (granted: nat)
      requires Valid()
      modifies this, budget
      ensures Valid() && granted == Min(want, budget.limit - old(budget.used))
      ensures budget.used == old(budget.used) + granted && bytes == old(bytes) + granted
      ensures budget.highWater == if granted == 0 then old(budget.highWater)
          else Max(old(budget.highWater), budget.used)
    {
      granted := Min(want, if budget.used < budget.limit then budget.limit - budget.used else 0);
      if granted > 0 {
        budget.used := budget.used + granted;
        budget.highWater := Max(budget.highWater, budget.used);
        bytes := bytes + granted;
      }
    }

    /** Gives `asked` bytes back, at most what the charge holds. */
    method Shrink(asked: nat)
      requires Valid()
      modifies this, budget
      ensures Valid() && budget.highWater == old(budget.highWater)
      ensures bytes == old(bytes) - Min(asked, old(bytes))
      ensures budget.used == old(budget.used) - Min(asked, old(bytes))
    {
      var n := Min(asked, bytes);
      bytes := bytes - n;
      budget.used := budget.used - n;
    }

    /** The end of the charge: all it holds goes back. */
    method Drop()
      requires Valid()
      modifies this, budget
      ensures Valid() && bytes == 0 && budget.used == old(budget.used) - old(bytes)
      ensures budget.highWater == old(budget.highWater)
    {
      budget.used := budget.used - bytes;
      bytes := 0;
    }
  }

  // ---- what the environment does ----

  /** One call's turn: it fails, is interrupted, or moves at most so many bytes. */
  datatype Turn = Faults | Interrupted | Moves(most: nat)

  /** What call `k` does with a request; after the last scripted turn, requests are met whole. */
  function TurnAt(turns: seq<Turn>, k: nat, want: nat): Turn {
    if k >= |turns| then Moves(want)
    else if turns[k].Moves? then Moves(Min(turns[k].most, want))
    else turns[k]
  }

  /** Some call before `calls` failed. */
  predicate AnyFault(turns: seq<Turn>, calls: nat) { exists k :: 0 <= k < calls && k < |turns| && turns[k].Faults? }

  /** Some write before `calls` failed or took nothing, which `write_all` holds to be a failure. */
  predicate AnyWriteFault(turns: seq<Turn>, calls: nat) {
    exists k :: 0 <= k < calls && k < |turns| && (turns[k].Faults? || turns[k] == Moves(0))
  }

  /** How many of the first `calls` turns were taken by something: the calls that were not interrupted. */
  function Taken(turns: seq<Turn>, calls: nat): (n: nat)
    ensures n <= calls
  {
    if calls == 0 then 0
    else Taken(turns, calls - 1) + if calls <= |turns| && turns[calls - 1].Interrupted? then 0 else 1
  }

  /** A finite source, read in whatever pieces its turns say, none of them empty before the end. */
  class Source {
    const data: seq<Byte>
    const turns: seq<Turn>
    var at: nat
    var calls: nat

    ghost predicate Valid() reads this { at <= |data| }

    constructor (data: seq<Byte>, turns: seq<Turn>)
      ensures Valid() && this.data == data && this.turns == turns && at == 0 && calls == 0
    {
      this.data, this.turns, at, calls := data, turns, 0, 0;
    }

    method ReadOnce(want: nat) returns (turn: Turn, chunk: seq<Byte>)
      requires Valid()
      modifies this
      ensures Valid() && calls == old(calls) + 1
      ensures turn == TurnAt(turns, old(calls), Min(want, |data| - old(at)))
      ensures at == old(at) + |chunk| && chunk == data[old(at)..at]
      ensures |chunk| == if turn.Moves? then Max(turn.most, Min(1, Min(want, |data| - old(at)))) else 0
    {
      turn := TurnAt(turns, calls, Min(want, |data| - at));
      calls := calls + 1;
      var n := if turn.Moves? then Max(turn.most, Min(1, Min(want, |data| - at))) else 0;
      chunk := data[at..at + n];
      at := at + n;
    }
  }

  /** `read_source`: retries what was interrupted; an empty piece means the end. */
  method ReadSource(source: Source, want: nat) returns (chunk: Option<seq<Byte>>)
    requires source.Valid() && !AnyFault(source.turns, source.calls)
    modifies source
    ensures source.Valid() && Taken(source.turns, source.calls) == Taken(source.turns, old(source.calls)) + 1
    ensures chunk.None? <==> AnyFault(source.turns, source.calls)
    ensures chunk.None? ==> source.at == old(source.at)
    ensures chunk.Some? ==>
              && |chunk.value| <= want && source.at == old(source.at) + |chunk.value|
              && chunk.value == source.data[old(source.at)..source.at]
              && (chunk.value == [] <==> want == 0 || source.at == old(source.at) == |source.data|)
  {
    while true
      invariant source.Valid() && source.at == old(source.at)
      invariant Taken(source.turns, source.calls) == Taken(source.turns, old(source.calls))
      invariant !AnyFault(source.turns, source.calls)
      decreases |source.turns| - source.calls
    {
      var turn, piece := source.ReadOnce(want);
      if turn.Moves? { return Some(piece); }
      if turn.Faults? { return None; }
    }
  }

  /** The disk a snapshot is written to: whether the file can be made, each write, and what `finish` asks. */
  class Disk {
    const turns: seq<Turn>
    const creates: bool
    const finishes: bool
    var calls: nat

    constructor (turns: seq<Turn>, creates: bool, finishes: bool)
      ensures this.turns == turns && this.creates == creates && this.finishes == finishes && calls == 0
    {
      this.turns, this.creates, this.finishes, calls := turns, creates, finishes, 0;
    }

    method Call(want: nat) returns (turn: Turn)
      modifies this
      ensures turn == TurnAt(turns, old(calls), want) && calls == old(calls) + 1
    {
      turn := TurnAt(turns, calls, want);
      calls := calls + 1;
    }
  }

  // ---- the writer ----

  datatype WriteFailure = Exceeded | Retry | Device

  /** An unfinished snapshot; `content` is the new file's bytes. */
  class SnapshotWriter {
    const charge: BudgetCharge
    const disk: Disk
    var content: seq<Byte>

    /** What is charged is what has landed. */
    ghost predicate Valid() reads this, charge, charge.budget { charge.Valid() && charge.bytes == |content| }

    /** What the budget has left. */
    ghost function Room(): nat
      reads this, charge, charge.budget
      requires Valid()
    {
      charge.budget.limit - charge.budget.used
    }

    constructor (charge: BudgetCharge, disk: Disk)
      requires charge.Valid() && charge.bytes == 0
      ensures Valid() && this.charge == charge && this.disk == disk && content == []
    {
      this.charge, this.disk, content := charge, disk, [];
    }

    /** The file takes what the disk's turn says of what it is given, or fails with none of it taken. */
    method WriteCharged(chunk: seq<Byte>) returns (turn: Turn)
      modifies this, disk
      ensures turn == TurnAt(disk.turns, old(disk.calls), |chunk|) && disk.calls == old(disk.calls) + 1
      ensures content == old(content) + if turn.Moves? then chunk[..turn.most] else []
    {
      turn := disk.Call(|chunk|);
      if turn.Moves? { content := content + chunk[..turn.most]; }
    }

    /**
     * Charges first, writes what was granted, refunds what did not land. The room decides whether
     * the disk is asked at all, and its turn decides the rest.
     */
    method Write(buf: seq<Byte>) returns (r: Result<nat, WriteFailure>)
      requires Valid()
      modifies this, charge, charge.budget, disk
      ensures Valid()
      ensures disk.calls == old(disk.calls) + if buf == [] || old(Room()) == 0 then 0 else 1
      ensures r == if buf == [] then Ok(0)
                   else if old(Room()) == 0 then Err(Exceeded)
                   else match TurnAt(disk.turns, old(disk.calls), Min(|buf|, old(Room())))
                        case Moves(n) => Ok(n)
                        case Interrupted => Err(Retry)
                        case Faults => Err(Device)
      ensures r.Ok? ==> r.value <= |buf| && content == old(content) + buf[..r.value]
      ensures r.Err? ==> content == old(content)
      ensures charge.budget.used == old(charge.budget.used) + |content| - |old(content)|
    {
      if buf == [] { return Ok(0); }
      var granted := charge.Grow(|buf|);
      if granted == 0 { return Err(Exceeded); }
      var turn := WriteCharged(buf[..granted]);
      charge.Shrink(granted - if turn.Moves? then turn.most else 0);
      match turn
      case Moves(n) =>
        assert buf[..granted][..n] == buf[..n];
        r := Ok(n);
      case Interrupted => r := Err(Retry);
      case Faults => r := Err(Device);
    }

    /**
     * `Write::write_all`: retries what was interrupted, and fails on a write that takes nothing.
     * It fails on the disk exactly when a write did, and on the budget only when the buffer does not fit.
     */
    method WriteAll(buf: seq<Byte>) returns (r: Result<(), WriteFailure>)
      requires Valid() && !AnyWriteFault(disk.turns, disk.calls)
      modifies this, charge, charge.budget, disk
      ensures Valid() && charge.budget.used - |content| == old(charge.budget.used) - |old(content)|
      ensures r == Err(Device) <==> AnyWriteFault(disk.turns, disk.calls)
      ensures Taken(disk.turns, disk.calls) <= Taken(disk.turns, old(disk.calls)) + |buf|
      ensures r.Ok? ==> content == old(content) + buf && |buf| <= old(Room())
      ensures r.Err? ==> r.error.Device? || (r.error.Exceeded? && |buf| > old(Room()))
    {
      var at := 0;
      while at < |buf|
        invariant 0 <= at <= |buf| && Valid() && content == old(content) + buf[..at]
        invariant charge.budget.used == old(charge.budget.used) + at
        invariant at <= old(Room()) && !AnyWriteFault(disk.turns, disk.calls)
        invariant Taken(disk.turns, disk.calls) <= Taken(disk.turns, old(disk.calls)) + at
        decreases |buf| - at, |disk.turns| - disk.calls
      {
        var n := Write(buf[at..]);
        if n.Err? {
          if !n.error.Retry? { return Err(n.error); }
        } else {
          if n.value == 0 { return Err(Device); }
          assert buf[at..][..n.value] == buf[at..at + n.value];
          assert buf[..at] + buf[at..at + n.value] == buf[..at + n.value];
          at := at + n.value;
        }
      }
      assert buf[..at] == buf;
      return Ok(());
    }
  }

  /** `Io` stands for every failure of the source, the disk or `finish`. */
  datatype SnapshotFailure = SourceTooLong | BudgetExceeded | Io

  /** `finish`: keeps the bytes and their charge, or fails on what the disk reports. */
  method Finish(writer: SnapshotWriter) returns (r: Result<seq<Byte>, SnapshotFailure>)
    requires writer.Valid()
    ensures r == if writer.disk.finishes then Ok(writer.content) else Err(Io)
  {
    r := if writer.disk.finishes then Ok(writer.content) else Err(Io);
  }

  /** The answer a source, a bound and the room at the start decide, when nothing fails. */
  function Decided(data: seq<Byte>, maxLen: nat, room: nat): Result<seq<Byte>, SnapshotFailure> {
    if Min(|data|, maxLen) > room then Err(BudgetExceeded)
    else if |data| > maxLen then Err(SourceTooLong)
    else Ok(data)
  }

  /** The copy loop of `snapshot_from`, with the writer it fills. */
  method Copy(source: Source, writer: SnapshotWriter, maxLen: nat, window: nat)
    returns (r: Result<seq<Byte>, SnapshotFailure>)
    requires source.Valid() && source.at == 0 && source.calls == 0 && window > 0
    requires writer.Valid() && writer.content == [] && writer.disk.calls == 0
    modifies source, writer, writer.charge, writer.charge.budget, writer.disk
    ensures writer.Valid() && source.at <= maxLen + 1
    ensures writer.charge.budget.used == old(writer.charge.budget.used) + |writer.content|
    ensures var decided := Decided(source.data, maxLen, old(writer.Room()));
            var failed := AnyFault(source.turns, source.calls) || AnyWriteFault(writer.disk.turns, writer.disk.calls)
                          || (decided.Ok? && !writer.disk.finishes);
            r == if failed then Err(Io) else decided
    ensures r.Ok? ==> writer.content == source.data
    ensures Taken(source.turns, source.calls) <= Min(|source.data|, maxLen) + 1
    ensures Taken(writer.disk.turns, writer.disk.calls) <= Min(|source.data|, maxLen)
  {
    var total := 0;
    while true
      invariant 0 <= total <= maxLen && source.Valid() && source.at == total && writer.Valid()
      invariant writer.content == source.data[..total] && total <= old(writer.Room())
      invariant writer.charge.budget.used == old(writer.charge.budget.used) + total
      invariant !AnyFault(source.turns, source.calls) && !AnyWriteFault(writer.disk.turns, writer.disk.calls)
      invariant Taken(source.turns, source.calls) <= total && Taken(writer.disk.turns, writer.disk.calls) <= total
      decreases maxLen - total
    {
      var remaining := maxLen - total;
      if remaining == 0 {
        var probe := ReadSource(source, 1);
        if probe.None? { return Err(Io); }
        if probe.value != [] { return Err(SourceTooLong); }
        assert source.data[..total] == source.data;
        r := Finish(writer);
        return;
      }
      var chunk := ReadSource(source, Min(remaining, window));
      if chunk.None? { return Err(Io); }
      if chunk.value == [] {
        assert source.data[..total] == source.data;
        r := Finish(writer);
        return;
      }
      var written := writer.WriteAll(chunk.value);
      if written.Err? { return Err(if written.error.Exceeded? then BudgetExceeded else Io); }
      assert source.data[..total] + source.data[total..source.at] == source.data[..source.at];
      total := total + |chunk.value|;
    }
  }

  /**
   * `snapshot_from`. It fails with `Io` exactly when a read, a write, or the file's making or finishing
   * failed; otherwise the source's length, the bound and the room at the start decide the answer, and
   * nothing else does: not how the source cuts its reads nor how the disk cuts its writes. At most one
   * byte past the bound is read, a failure gives every byte of budget back, and past the interruptions
   * there is no more than one read a byte, one more to find the end, and one write a byte.
   */
  method SnapshotFrom(budget: DiskBudget, source: Source, disk: Disk, maxLen: nat, window: nat)
    returns (r: Result<seq<Byte>, SnapshotFailure>)
    requires budget.Valid() && source.Valid() && source.at == 0 && source.calls == 0 && disk.calls == 0 && window > 0
    modifies budget, source, disk
    ensures budget.Valid() && source.at <= maxLen + 1
    ensures var room, len := budget.limit - old(budget.used), |source.data|;
            var failed := !disk.creates || AnyFault(source.turns, source.calls) || AnyWriteFault(disk.turns, disk.calls)
                          || (len <= maxLen && len <= room && !disk.finishes);
            && (r == Err(Io) <==> failed)
            && (!failed ==>
                  && (r == Ok(source.data) <==> len <= maxLen && len <= room)
                  && (r == Err(BudgetExceeded) <==> Min(len, maxLen) > room)
                  && (r == Err(SourceTooLong) <==> len > maxLen && maxLen <= room))
    ensures !disk.creates ==> source.calls == 0 && disk.calls == 0
    ensures Taken(source.turns, source.calls) <= Min(|source.data|, maxLen) + 1
    ensures Taken(disk.turns, disk.calls) <= Min(|source.data|, maxLen)
    ensures budget.used == old(budget.used) + if r.Ok? then |r.value| else 0
  {
    if !disk.creates {
      assert source.calls == 0 && disk.calls == 0;
      return Err(Io);
    }
    var charge := new BudgetCharge(budget);
    var writer := new SnapshotWriter(charge, disk);
    r := Copy(source, writer, maxLen, window);
    if r.Err? { charge.Drop(); }
  }

  // ---- reading it back ----

  datatype SeekFrom = Start(offset: nat) | End(delta: int) | Current(delta: int)

  const U64_LIMIT: nat := 0x1_0000_0000_0000_0000

  /** A cursor over retained bytes; readers share the bytes and nothing else. `turns` is what its file does. */
  class RetainedReader {
    const content: seq<Byte>
    const turns: seq<Turn>
    var pos: nat
    var calls: nat

    constructor (content: seq<Byte>, turns: seq<Turn>)
      ensures this.content == content && this.turns == turns && pos == 0 && calls == 0
    {
      this.content, this.turns, pos, calls := content, turns, 0, 0;
    }

    /** Some read of the file so far failed, was interrupted, or ended before the recorded length. */
    predicate Failed()
      reads this
    {
      exists k :: 0 <= k < calls && k < |turns| && (!turns[k].Moves? || turns[k].most == 0)
    }

    /**
     * Fills a front of `buf` with the bytes at the cursor. The file is asked only when there are bytes
     * left and room for them; then it is an error exactly when the file's turn is no bytes at all.
     */
    method Read(buf: array<Byte>) returns (r: Option<nat>)
      modifies this`pos, this`calls, buf
      ensures var want := if old(pos) < |content| then Min(|content| - old(pos), buf.Length) else 0;
              && calls == old(calls) + (if want == 0 then 0 else 1)
              && r == (if want == 0 then Some(0)
                       else match TurnAt(turns, old(calls), want)
                            case Moves(n) => if n == 0 then None else Some(n)
                            case _ => None)
      ensures r.None? ==> pos == old(pos)
      ensures r.Some? ==>
                && r.value <= buf.Length && pos == old(pos) + r.value
                && (r.value > 0 ==> pos <= |content| && buf[..r.value] == content[old(pos)..pos])
                && buf[r.value..] == old(buf[r.value..])
    {
      if pos >= |content| { return Some(0); }
      var want := Min(|content| - pos, buf.Length);
      if want == 0 { return Some(0); }
      var turn := TurnAt(turns, calls, want);
      calls := calls + 1;
      if !turn.Moves? || turn.most == 0 { return None; }
      var read := turn.most;
      var i := 0;
      while i < read
        invariant 0 <= i <= read && pos == old(pos) && calls == old(calls) + 1
        invariant forall k :: 0 <= k < i ==> buf[k] == content[pos + k]
        invariant buf[read..] == old(buf[read..])
      {
        buf[i] := content[pos + i];
        i := i + 1;
      }
      pos := pos + read;
      return Some(read);
    }

    /** The target when it is a 64-bit position, and otherwise an error with the cursor unmoved. */
    method Seek(to: SeekFrom) returns (r: Option<nat>)
      requires to.Start? ==> to.offset < U64_LIMIT
      modifies this`pos
      ensures var target := match to
                            case Start(offset) => offset
                            case End(d) => |content| + d
                            case Current(d) => old(pos) + d;
              if 0 <= target < 0x1_0000_0000_0000_0000 then r == Some(target) && pos == target
              else r == None && pos == old(pos)
    {
      var target := match to case Start(offset) => offset case End(d) => |content| + d case Current(d) => pos + d;
      if target < 0 || target >= U64_LIMIT { return None; }
      pos := target;
      return Some(target);
    }
  }

  /** How many of the turns are the first reader's. */
  function Firsts(turns: seq<bool>): (n: nat)
    ensures n <= |turns|
  {
    if turns == [] then 0 else Firsts(turns[..|turns| - 1]) + if turns[|turns| - 1] then 1 else 0
  }

  /**
   * Reading two readers of one snapshot in any interleaving, with any buffer, gives each
   * of them the retained bytes from the start. `failed` tells whether a read of either file
   * did; a reader none of whose reads failed has advanced at every turn it had bytes left.
   */
  method ReadInterleaved(first: RetainedReader, second: RetainedReader, turns: seq<bool>, buf: array<Byte>)
    returns (a: seq<Byte>, b: seq<Byte>, failed: bool)
    requires first != second && first.content == second.content && buf.Length > 0
    requires first.pos == first.calls == 0 && second.pos == second.calls == 0
    modifies first, second, buf
    ensures first.pos <= |first.content| && a == first.content[..first.pos]
    ensures second.pos <= |first.content| && b == first.content[..second.pos]
    ensures failed <==> first.Failed() || second.Failed()
    ensures first.calls <= Firsts(turns) && (!first.Failed() ==> first.pos >= Min(|first.content|, Firsts(turns)))
    ensures second.calls <= |turns| - Firsts(turns)
    ensures !second.Failed() ==> second.pos >= Min(|first.content|, |turns| - Firsts(turns))
  {
    a, b, failed := [], [], false;
    var i := 0;
    while i < |turns|
      invariant 0 <= i <= |turns|
      invariant first.pos <= |first.content| && a == first.content[..first.pos]
      invariant second.pos <= |first.content| && b == first.content[..second.pos]
      invariant failed <==> first.Failed() || second.Failed()
      invariant first.calls <= Firsts(turns[..i])
      invariant !first.Failed() ==> first.pos >= Min(|first.content|, Firsts(turns[..i]))
      invariant second.calls <= i - Firsts(turns[..i])
      invariant !second.Failed() ==> second.pos >= Min(|first.content|, i - Firsts(turns[..i]))
    {
      assert turns[..i + 1][..i] == turns[..i];
      if turns[i] {
        var n := ReadTurn(first, buf);
        if n.None? { failed := true; } else { a := a + buf[..n.value]; }
      } else {
        var n := ReadTurn(second, buf);
        if n.None? { failed := true; } else { b := b + buf[..n.value]; }
      }
      i := i + 1;
    }
    assert turns[..i] == turns;
  }

  /** One read, with what it means for the readers' progress. */
  method ReadTurn(reader: RetainedReader, buf: array<Byte>) returns (n: Option<nat>)
    requires reader.pos <= |reader.content| && buf.Length > 0
    modifies reader`pos, reader`calls, buf
    ensures reader.calls == old(reader.calls) + if old(reader.pos) < |reader.content| then 1 else 0
    ensures reader.Failed() <==> old(reader.Failed()) || n.None?
    ensures n.None? ==> reader.pos == old(reader.pos)
    ensures n.Some? ==>
              && n.value <= buf.Length && reader.pos == old(reader.pos) + n.value <= |reader.content|
              && buf[..n.value] == reader.content[old(reader.pos)..reader.pos]
              && (n.value == 0 <==> old(reader.pos) == |reader.content|)
  {
    n := reader.Read(buf);
    if n == Some(0) { assert buf[..0] == reader.content[reader.pos..reader.pos]; }
  }

  /** Reading until an empty read gives all the bytes, however each read is cut, unless a read failed. */
  method ReadToEnd(reader: RetainedReader, buf: array<Byte>) returns (all: Option<seq<Byte>>)
    requires reader.pos == reader.calls == 0 && buf.Length > 0
    modifies reader, buf
    ensures reader.calls <= |reader.content|
    ensures all == if reader.Failed() then None else Some(reader.content)
  {
    var read := [];
    while true
      invariant reader.pos <= |reader.content| && read == reader.content[..reader.pos]
      invariant !reader.Failed() && reader.calls <= reader.pos
      decreases |reader.content| - reader.pos
    {
      var n := ReadTurn(reader, buf);
      if n.None? { return None; }
      if n.value == 0 {
        assert reader.content[..reader.pos] == reader.content;
        return Some(read);
      }
      read := read + buf[..n.value];
    }
  }
}
