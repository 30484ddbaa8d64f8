/**
 * The shared retained-disk budget under every interleaving (src/retain.rs:213-335).
 *
 * `used` and `high_water` are atomics, but growing a charge is three separate steps
 * (take from `used`, raise `high_water`, book the bytes) and giving bytes back is two,
 * so other threads run between them. A snapshot writer adds its own: it charges before
 * it writes and refunds what did not land (src/retain.rs:862-886).
 */
module BudgetMachine {

  /** What one thread is in the middle of. */
  datatype Flight =
    | Resting
    | Granted(bytes: nat, total: nat)
    | Noted(bytes: nat)
    | Writing(bytes: nat)
    | Owing(bytes: nat)
    | Returning(bytes: nat)
    | Closed

  /** A charge; `len` is what its writer has put on disk, for a charge a writer holds. */
  datatype Charge = Charge(writer: bool, bytes: nat, len: nat, flight: Flight)

  /** The shared state, and `peak`, the greatest value `used` has had. */
  datatype Budget = Budget(limit: nat, used: nat, highWater: nat, charges: seq<Charge>, peak: nat)

  function Max(a: nat, b: nat): nat { if a < b then b else a }

  function Min(a: nat, b: nat): nat { if a < b then a else b }

  /** How many bytes a request is granted: what is left, at most what is wanted. */
  function Grant(b: Budget, want: nat): nat { if b.used < b.limit then Min(want, b.limit - b.used) else 0 }

  /** The bytes of `used` one charge answers for: its own, and those on their way in or out. */
  function Share(c: Charge): nat {
    match c.flight
    case Granted(n, _) => c.bytes + n
    case Noted(n) => c.bytes + n
    case Returning(n) => c.bytes + n
    case Closed => 0
    case _ => c.bytes
  }

  function Sum(charges: seq<Charge>): nat {
    if charges == [] then 0 else Sum(charges[..|charges| - 1]) + Share(charges[|charges| - 1])
  }

  function Held(charges: seq<Charge>): nat {
    if charges == [] then 0
    else
      var last := charges[|charges| - 1];
      Held(charges[..|charges| - 1]) + (if last.flight.Closed? then 0 else last.bytes)
  }

  // ---- steps; each is one atomic instruction of one thread ----

  function Set(b: Budget, i: nat, c: Charge): Budget
    requires i < |b.charges|
  {
    b.(charges := b.charges[i := c])
  }

  predicate Open(b: Budget, b': Budget) {
    exists writer :: b' == b.(charges := b.charges + [Charge(writer, 0, 0, Resting)])
  }

  /** `grow`: the successful `try_update`; a request granted nothing changes nothing. */
  predicate Takes(b: Budget, b': Budget, i: nat, want: nat) {
    && i < |b.charges| && b.charges[i].flight.Resting?
    && var n := Grant(b, want);
    && n > 0 && b' == Set(b, i, b.charges[i].(flight := Granted(n, b.used + n)))
                      .(used := b.used + n, peak := Max(b.peak, b.used + n))
  }

  ghost predicate Take(b: Budget, b': Budget, i: nat) { exists want: nat :: Takes(b, b', i, want) }

  /** `grow`: `fetch_max` with the total this grant saw. */
  predicate Note(b: Budget, b': Budget, i: nat) {
    && i < |b.charges| && b.charges[i].flight.Granted?
    && b' == Set(b, i, b.charges[i].(flight := Noted(b.charges[i].flight.bytes)))
             .(highWater := Max(b.highWater, b.charges[i].flight.total))
  }

  /** `grow`: the charge's own field. */
  predicate Book(b: Budget, b': Budget, i: nat) {
    && i < |b.charges| && b.charges[i].flight.Noted?
    && var c := b.charges[i];
    && b' == Set(b, i, c.(bytes := c.bytes + c.flight.bytes,
                          flight := if c.writer then Writing(c.flight.bytes) else Resting))
  }

  /** `write_charged`: some of the granted bytes land; the rest is to be refunded. */
  predicate Lands(b: Budget, b': Budget, i: nat, landed: nat) {
    && i < |b.charges| && b.charges[i].flight.Writing? && landed <= b.charges[i].flight.bytes
    && var c := b.charges[i];
    && b' == Set(b, i, c.(len := c.len + landed, flight := Owing(c.flight.bytes - landed)))
  }

  ghost predicate Land(b: Budget, b': Budget, i: nat) { exists landed :: Lands(b, b', i, landed) }

  /** `shrink`: off the charge's own field first. A writer gives back what it owes. */
  predicate Releases(b: Budget, b': Budget, i: nat, asked: nat) {
    && i < |b.charges|
    && var c := b.charges[i];
    && (if c.writer then c.flight == Owing(asked) else c.flight.Resting?)
    && var n := Min(asked, c.bytes);
    && b' == Set(b, i, c.(bytes := c.bytes - n, flight := Returning(n)))
  }

  ghost predicate Release(b: Budget, b': Budget, i: nat) { exists asked: nat :: Releases(b, b', i, asked) }

  /** `shrink`: then off the shared total. */
  predicate Return(b: Budget, b': Budget, i: nat) {
    && i < |b.charges| && b.charges[i].flight.Returning? && b.charges[i].flight.bytes <= b.used
    && b' == Set(b, i, b.charges[i].(flight := Resting)).(used := b.used - b.charges[i].flight.bytes)
  }

  /** `drop`: everything the charge holds. */
  predicate Drop(b: Budget, b': Budget, i: nat) {
    && i < |b.charges| && b.charges[i].flight.Resting? && b.charges[i].bytes <= b.used
    && b' == Set(b, i, b.charges[i].(flight := Closed)).(used := b.used - b.charges[i].bytes)
  }

  ghost predicate Act(b: Budget, b': Budget, i: nat) {
    || Take(b, b', i) || Note(b, b', i) || Book(b, b', i) || Land(b, b', i)
    || Release(b, b', i) || Return(b, b', i) || Drop(b, b', i)
  }

  ghost predicate Next(b: Budget, b': Budget) { Open(b, b') || exists i :: Act(b, b', i) }

  ghost predicate IsRun(run: seq<Budget>) {
    && run != [] && run[0] == Budget(run[0].limit, 0, 0, [], 0)
    && forall i :: 0 <= i < |run| - 1 ==> Next(run[i], run[i + 1])
  }

  // ---- one thread on its own ----

  /** Nothing of another charge is different. */
  predicate OnlyCharge(b: Budget, b': Budget, i: nat) {
    && i < |b.charges| == |b'.charges| && b'.limit == b.limit
    && forall j :: 0 <= j < |b.charges| && j != i ==> b'.charges[j] == b.charges[j]
  }

  /**
   * The three steps of a growth with no other thread between them: the request in full or all that was left, on
   * the charge and on the total, with the mark raised to the total it reached.
   */
  lemma GrowthAlone(b: Budget, taken: Budget, noted: Budget, booked: Budget, i: nat, want: nat)
    requires Takes(b, taken, i, want) && Note(taken, noted, i) && Book(noted, booked, i)
    ensures b.used < booked.used <= b.limit && booked.used <= b.used + want
    ensures booked.used == b.used + want || booked.used == b.limit
    ensures OnlyCharge(b, booked, i) && booked.charges[i].bytes - b.charges[i].bytes == booked.used - b.used
    ensures booked.highWater >= b.highWater && booked.highWater >= booked.used
    ensures booked.highWater == b.highWater || booked.highWater == booked.used
  {
  }

  /** Only a request for nothing or a full budget keeps a resting thread from growing. */
  lemma GrowthIsRefusedExactly(b: Budget, i: nat, want: nat)
    requires i < |b.charges| && b.charges[i].flight.Resting?
    ensures (exists b' :: Takes(b, b', i, want)) <==> want > 0 && b.used < b.limit
  {
    var n := Grant(b, want);
    if n > 0 {
      assert Takes(b, Set(b, i, b.charges[i].(flight := Granted(n, b.used + n)))
                      .(used := b.used + n, peak := Max(b.peak, b.used + n)), i, want);
    }
  }

  /** The two steps of a refund with no other thread between them: what was asked, or all the charge holds. */
  lemma RefundAlone(b: Budget, released: Budget, returned: Budget, i: nat, asked: nat)
    requires Releases(b, released, i, asked) && Return(released, returned, i)
    ensures OnlyCharge(b, returned, i) && returned.charges[i].flight.Resting?
    ensures b.used - returned.used == b.charges[i].bytes - returned.charges[i].bytes
    ensures returned.used <= b.used && b.used - returned.used <= asked
    ensures b.used - returned.used == asked || returned.charges[i].bytes == 0
    ensures returned.highWater == b.highWater
  {
  }

  /** Each step, of whatever size, by whichever thread, is one the runs are made of. */
  lemma EveryStepCounts(b: Budget, b': Budget, i: nat, n: nat)
    requires || Takes(b, b', i, n) || Note(b, b', i) || Book(b, b', i) || Lands(b, b', i, n) || Releases(b, b', i, n)
             || Return(b, b', i) || Drop(b, b', i)
    ensures Next(b, b')
  {
    hide Takes, Note, Book, Lands, Releases, Return, Drop;
    assert Act(b, b', i);
  }

  // ---- what every interleaving keeps ----

  /** A writer's charge is its length, but for bytes granted and not yet landed or refunded. */
  predicate WriterBooks(c: Charge) {
    c.writer ==> c.bytes == c.len + match c.flight case Writing(n) => n case Owing(n) => n case _ => 0
  }

  ghost predicate Inv(b: Budget) {
    && b.used <= b.limit
    && b.used == Sum(b.charges)
    && b.used <= b.peak
    && b.highWater <= b.peak
    && (forall i :: 0 <= i < |b.charges| && b.charges[i].flight.Granted? ==> b.charges[i].flight.total <= b.peak)
    && (b.highWater == b.peak
        || exists i :: 0 <= i < |b.charges| && b.charges[i].flight.Granted? && b.charges[i].flight.total == b.peak)
    && (forall i :: 0 <= i < |b.charges| ==> WriterBooks(b.charges[i]))
  }

  lemma {:induction false} SumUpdate(charges: seq<Charge>, i: nat, c: Charge)
    requires i < |charges|
    ensures Sum(charges[i := c]) == Sum(charges) - Share(charges[i]) + Share(c)
    decreases |charges|
  {
    var n := |charges| - 1;
    if i < n {
      SumUpdate(charges[..n], i, c);
      assert charges[i := c][..n] == charges[..n][i := c];
    } else {
      assert charges[i := c][..n] == charges[..n];
    }
  }

  lemma {:induction false} ShareInSum(charges: seq<Charge>, i: nat)
    requires i < |charges|
    ensures Share(charges[i]) <= Sum(charges)
    decreases |charges|
  {
    if i < |charges| - 1 { ShareInSum(charges[..|charges| - 1], i); }
  }

  /** An act changes one charge, and `used` by exactly that charge's share. */
  lemma ActMovesOneShare(b: Budget, b': Budget, i: nat)
    requires Act(b, b', i) && (forall j :: 0 <= j < |b.charges| ==> WriterBooks(b.charges[j]))
    ensures i < |b.charges| == |b'.charges| && b'.charges == b.charges[i := b'.charges[i]] && b'.limit == b.limit
    ensures b'.used - b.used == Share(b'.charges[i]) - Share(b.charges[i])
    ensures b.used <= b.limit ==> b'.used <= b'.limit
    ensures WriterBooks(b'.charges[i])
  {
    assert WriterBooks(b.charges[i]);
  }

  lemma ActKeepsPeak(b: Budget, b': Budget, i: nat)
    requires Inv(b) && Act(b, b', i)
    ensures b'.used <= b'.peak && b'.highWater <= b'.peak
    ensures forall j :: 0 <= j < |b'.charges| && b'.charges[j].flight.Granted? ==> b'.charges[j].flight.total <= b'.peak
    ensures b'.highWater == b'.peak
            || exists j :: 0 <= j < |b'.charges| && b'.charges[j].flight.Granted?
                && b'.charges[j].flight.total == b'.peak
  {
    hide Sum, Share, WriterBooks;
    assert forall j :: 0 <= j < |b.charges| && j != i ==> b'.charges[j] == b.charges[j];
    if b'.highWater != b'.peak {
      if b'.peak != b.peak {
        assert b'.charges[i].flight.total == b'.peak;
      } else {
        var j :| 0 <= j < |b.charges| && b.charges[j].flight.Granted? && b.charges[j].flight.total == b.peak;
        assert j != i;
      }
    }
  }

  lemma ActKeepsInv(b: Budget, b': Budget, i: nat)
    requires Inv(b) && Act(b, b', i)
    ensures Inv(b')
  {
    ActMovesOneShare(b, b', i);
    SumUpdate(b.charges, i, b'.charges[i]);
    ActKeepsPeak(b, b', i);
    hide Act, Sum, Share, WriterBooks;
    assert forall j :: 0 <= j < |b.charges| && j != i ==> b'.charges[j] == b.charges[j];
  }

  lemma StepKeepsInv(b: Budget, b': Budget)
    requires Inv(b) && Next(b, b')
    ensures Inv(b')
  {
    if Open(b, b') {
      assert b'.charges[..|b'.charges| - 1] == b.charges;
      if b.highWater != b.peak {
        var j :| 0 <= j < |b.charges| && b.charges[j].flight.Granted? && b.charges[j].flight.total == b.peak;
        assert b'.charges[j] == b.charges[j];
      }
    } else {
      var i :| Act(b, b', i);
      ActKeepsInv(b, b', i);
    }
  }

  lemma {:induction false} RunsKeepInv(run: seq<Budget>, i: nat)
    requires IsRun(run) && i < |run|
    ensures Inv(run[i])
    decreases i
  {
    if i > 0 {
      RunsKeepInv(run, i - 1);
      StepKeepsInv(run[i - 1], run[i]);
    }
  }

  // ---- the promises ----

  /** However the threads interleave, the total never passes the limit and no byte is counted twice or lost. */
  lemma NeverOverLimit(run: seq<Budget>, i: nat)
    requires IsRun(run) && i < |run|
    ensures run[i].used <= run[0].limit
    ensures run[i].used == Sum(run[i].charges)
  {
    RunsKeepInv(run, i);
    SameLimit(run, i);
  }

  lemma PeakSteps(b: Budget, b': Budget)
    requires Next(b, b')
    ensures b'.limit == b.limit && b'.peak == Max(b.peak, b'.peak)
    ensures b.used <= b.peak ==> b'.used <= b'.peak
    ensures b'.peak == b.peak || b'.peak == b'.used
  {
    if !Open(b, b') { var i :| Act(b, b', i); }
  }

  lemma {:induction false} SameLimit(run: seq<Budget>, i: nat)
    requires IsRun(run) && i < |run|
    ensures run[i].limit == run[0].limit
    decreases i
  {
    if i > 0 {
      SameLimit(run, i - 1);
      PeakSteps(run[i - 1], run[i]);
    }
  }

  /** The unchecked subtractions of `shrink` and `drop` never wrap: no thread can be short. */
  lemma SubtractionsNeverWrap(run: seq<Budget>, i: nat, j: nat)
    requires IsRun(run) && i < |run| && j < |run[i].charges|
    ensures run[i].charges[j].flight.Returning? ==> run[i].charges[j].flight.bytes <= run[i].used
    ensures run[i].charges[j].flight.Resting? ==> run[i].charges[j].bytes <= run[i].used
  {
    RunsKeepInv(run, i);
    ShareInSum(run[i].charges, j);
  }

  ghost predicate CanRelease(b: Budget, i: nat, asked: nat) { exists b' :: Releases(b, b', i, asked) }

  ghost predicate CanLand(b: Budget, i: nat, landed: nat) { exists b' :: Lands(b, b', i, landed) }

  /** What a thread can do next, whatever the others do: nothing but its own flight decides it. */
  ghost predicate IsFree(b: Budget, i: nat)
    requires i < |b.charges|
  {
    var c := b.charges[i];
    match c.flight
    case Resting =>
      && (exists b' :: Drop(b, b', i))
      && (!c.writer ==> forall asked: nat :: CanRelease(b, i, asked))
    case Granted(_, _) => exists b' :: Note(b, b', i)
    case Noted(_) => exists b' :: Book(b, b', i)
    case Writing(n) => forall landed: nat :: CanLand(b, i, landed) <==> landed <= n
    case Owing(n) => c.writer ==> CanRelease(b, i, n)
    case Returning(_) => exists b' :: Return(b, b', i)
    case Closed => forall b' :: !Act(b, b', i)
  }

  /** No thread ever waits: in every reachable state each can take its next step, with any part of a write landing. */
  lemma NoThreadIsStuck(run: seq<Budget>, i: nat, j: nat)
    requires IsRun(run) && i < |run| && j < |run[i].charges|
    ensures IsFree(run[i], j)
  {
    SubtractionsNeverWrap(run, i, j);
    Moves(run[i], j);
  }

  lemma Moves(b: Budget, i: nat)
    requires i < |b.charges|
    requires b.charges[i].flight.Returning? ==> b.charges[i].flight.bytes <= b.used
    requires b.charges[i].flight.Resting? ==> b.charges[i].bytes <= b.used
    ensures IsFree(b, i)
  {
    var c := b.charges[i];
    match c.flight
    case Resting =>
      assert Drop(b, Set(b, i, c.(flight := Closed)).(used := b.used - c.bytes), i);
      if !c.writer {
        forall asked: nat ensures CanRelease(b, i, asked) { ReleaseIsPossible(b, i, asked); }
      }
    case Granted(n, total) =>
      assert Note(b, Set(b, i, c.(flight := Noted(n))).(highWater := Max(b.highWater, total)), i);
    case Noted(n) =>
      assert Book(b, Set(b, i, c.(bytes := c.bytes + n, flight := if c.writer then Writing(n) else Resting)), i);
    case Writing(n) =>
      forall landed: nat | landed <= n
        ensures CanLand(b, i, landed)
      {
        assert Lands(b, Set(b, i, c.(len := c.len + landed, flight := Owing(n - landed))), i, landed);
      }
    case Owing(n) => if c.writer { ReleaseIsPossible(b, i, n); }
    case Returning(n) => assert Return(b, Set(b, i, c.(flight := Resting)).(used := b.used - n), i);
    case Closed =>
  }

  lemma ReleaseIsPossible(b: Budget, i: nat, asked: nat)
    requires i < |b.charges|
    requires if b.charges[i].writer then b.charges[i].flight == Owing(asked) else b.charges[i].flight.Resting?
    ensures CanRelease(b, i, asked)
  {
    var c := b.charges[i];
    var n := Min(asked, c.bytes);
    assert Releases(b, Set(b, i, c.(bytes := c.bytes - n, flight := Returning(n))), i, asked);
  }

  predicate Quiescent(b: Budget) {
    forall i :: 0 <= i < |b.charges| ==> b.charges[i].flight.Resting? || b.charges[i].flight.Closed?
  }

  lemma {:induction false} QuietSum(charges: seq<Charge>)
    requires forall i :: 0 <= i < |charges| ==> charges[i].flight.Resting? || charges[i].flight.Closed?
    ensures Sum(charges) == Held(charges)
    decreases |charges|
  {
    if charges != [] { QuietSum(charges[..|charges| - 1]); }
  }

  /** `peak` is what it says: an upper bound on every earlier total, and one of them. */
  lemma {:induction false} PeakIsTheMaximum(run: seq<Budget>, i: nat) returns (at: nat)
    requires IsRun(run) && i < |run|
    ensures forall j :: 0 <= j <= i ==> run[j].used <= run[i].peak
    ensures at <= i && run[at].used == run[i].peak
    decreases i
  {
    if i == 0 {
      at := 0;
    } else {
      at := PeakIsTheMaximum(run, i - 1);
      PeakSteps(run[i - 1], run[i]);
      if run[i].peak != run[i - 1].peak { at := i; }
    }
  }

  /**
   * With no thread inside an update, `used` is exactly what the live charges hold,
   * `high_water` is exactly the greatest total there ever was, and every writer's charge
   * is exactly its length.
   */
  lemma QuiescentBooksBalance(run: seq<Budget>, i: nat) returns (at: nat)
    requires IsRun(run) && i < |run| && Quiescent(run[i])
    ensures run[i].used == Held(run[i].charges)
    ensures forall j :: 0 <= j <= i ==> run[j].used <= run[i].highWater
    ensures at <= i && run[at].used == run[i].highWater
    ensures forall k :: 0 <= k < |run[i].charges| && run[i].charges[k].writer ==>
        run[i].charges[k].bytes == run[i].charges[k].len
  {
    RunsKeepInv(run, i);
    QuietSum(run[i].charges);
    at := PeakIsTheMaximum(run, i);
    assert run[i].highWater == run[i].peak;
    forall k | 0 <= k < |run[i].charges| && run[i].charges[k].writer
      ensures run[i].charges[k].bytes == run[i].charges[k].len
    {
      assert WriterBooks(run[i].charges[k]);
    }
  }
}
