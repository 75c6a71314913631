/** The per-device seqlock of library/src/config_io.c as a state machine over the
    steps of one reader and of the writers it races: every interleaving of single
    loads, word copies and word writes. */
module Seqlock {

  const SEQ_MODULUS := 0x1_0000_0000
  const SPIN_LIMIT := 1024

  datatype Guard = Sequence | ReadLock | NoLock

  /** A finished reader remembers how many commits there were when it returned and
      by how much the version had moved between its two loads of seq. */
  datatype Reader =
    | Begin                                                        // about to load seq
    | Copying(s1: nat, snap: map<nat, int>, since: nat)            // s1 was even, read at version `since`
    | LockWait                                                     // spin cap hit
    | LockedCopy(guard: Guard, snap: map<nat, int>)
    | Done(guard: Guard, snap: map<nat, int>, current: nat, lag: nat)

  /** `version` counts the bumps of seq, `committed` the states published so far. */
  datatype State = State(
    sequence: nat, words: seq<int>, writing: bool, readLocked: bool, reader: Reader, spins: nat,
    version: nat, committed: seq<seq<int>>)

  datatype Action =
    | WriteBegin | WriteWord(i: nat, v: int) | WriteEnd
    | Load | Copy(i: nat) | Recheck | TakeLock | LockRefused | Release

  predicate IsReaderAction(a: Action) { !a.WriteBegin? && !a.WriteWord? && !a.WriteEnd? }

  predicate Complete(snap: map<nat, int>, n: nat) {
    forall i: nat :: i < n ==> i in snap
  }

  predicate Enabled(s: State, a: Action) {
    match a
    case WriteBegin => !s.writing && !s.readLocked
    case WriteWord(i, v) => s.writing && i < |s.words|
    case WriteEnd => s.writing
    case Load => s.reader.Begin?
    case Copy(i) => (s.reader.Copying? || s.reader.LockedCopy?) && i < |s.words| && i !in s.reader.snap
    case Recheck => s.reader.Copying? && Complete(s.reader.snap, |s.words|)
    case TakeLock => s.reader.LockWait? && !s.writing
    case LockRefused => s.reader.LockWait?
    case Release => s.reader.LockedCopy? && Complete(s.reader.snap, |s.words|)
  }

  function Bump(s: State): State {
    s.(sequence := (s.sequence + 1) % SEQ_MODULUS, version := s.version + 1)
  }

  /** Count a failed attempt: retry, or fall back to the lock at the spin cap. */
  function Spin(s: State): State {
    s.(spins := s.spins + 1, reader := if s.spins + 1 >= SPIN_LIMIT then LockWait else Begin)
  }

  function Moved(since: nat, version: nat): nat { if version >= since then version - since else 0 }

  function Step(s: State, a: Action): State
    requires Enabled(s, a)
  {
    match a
    case WriteBegin => Bump(s).(writing := true)
    case WriteWord(i, v) => s.(words := s.words[i := v])
    case WriteEnd => Bump(s).(writing := false, committed := s.committed + [s.words])
    case Load => if s.sequence % 2 == 0 then s.(reader := Copying(s.sequence, map[], s.version)) else Spin(s)
    case Copy(i) =>
      var snap := s.reader.snap[i := s.words[i]];
      s.(reader := if s.reader.Copying? then Copying(s.reader.s1, snap, s.reader.since)
                   else LockedCopy(s.reader.guard, snap))
    case Recheck =>
      if s.sequence == s.reader.s1
      then s.(reader := Done(Sequence, s.reader.snap, |s.committed|, Moved(s.reader.since, s.version)))
      else Spin(s)
    case TakeLock => s.(readLocked := true, reader := LockedCopy(ReadLock, map[]))
    case LockRefused => s.(reader := LockedCopy(NoLock, map[]))
    case Release =>
      s.(readLocked := s.readLocked && s.reader.guard != ReadLock,
         reader := Done(s.reader.guard, s.reader.snap, |s.committed|, 0))
  }

  predicate Runs(s: State, acts: seq<Action>)
    decreases |acts|
  {
    acts == [] || (Enabled(s, acts[0]) && Runs(Step(s, acts[0]), acts[1..]))
  }

  function Final(s: State, acts: seq<Action>): State
    requires Runs(s, acts)
    decreases |acts|
  {
    if acts == [] then s else Final(Step(s, acts[0]), acts[1..])
  }

  ghost predicate Initial(s: State) {
    && s.sequence < SEQ_MODULUS && s.sequence % 2 == 0
    && !s.writing && !s.readLocked && s.reader == Begin && s.spins == 0
    && s.version == 0 && s.committed == [s.words]
  }

  // -------------------------------------------------------------- invariant

  ghost predicate Agrees(snap: map<nat, int>, words: seq<int>) {
    forall i :: i in snap ==> i < |words| && snap[i] == words[i]
  }

  ghost predicate ReaderInv(s: State, base: nat) {
    match s.reader
    case Begin => s.spins < SPIN_LIMIT
    case Copying(s1, snap, since) =>
      && s.spins < SPIN_LIMIT
      && since <= s.version && since % 2 == 0 && s1 == (base + since) % SEQ_MODULUS
      && (forall i :: i in snap ==> i < |s.words|)
      && (since == s.version ==> Agrees(snap, s.words))
    case LockWait => true
    case LockedCopy(guard, snap) =>
      && (forall i :: i in snap ==> i < |s.words|)
      && guard != Sequence
      && (guard == ReadLock ==> s.readLocked && !s.writing && Agrees(snap, s.words))
    case Done(guard, snap, current, lag) =>
      && Complete(snap, |s.words|)
      && 1 <= current <= |s.committed|
      && lag % SEQ_MODULUS == 0
      && (guard != NoLock && lag == 0 ==> Agrees(snap, s.committed[current - 1]))
  }

  /** The shared words, whatever the reader does. `base` is the sequence word the run
      started from. */
  ghost predicate SharedInv(s: State, base: nat) {
    && base % 2 == 0
    && s.sequence == (base + s.version) % SEQ_MODULUS
    && (s.writing <==> s.version % 2 == 1)
    && |s.committed| == s.version / 2 + 1
    && (forall k :: 0 <= k < |s.committed| ==> |s.committed[k]| == |s.words|)
    && (!s.writing ==> s.words == s.committed[|s.committed| - 1])
  }

  ghost predicate Inv(s: State, base: nat) {
    && SharedInv(s, base)
    && (s.readLocked ==> !s.writing && s.reader.LockedCopy? && s.reader.guard == ReadLock)
    && ReaderInv(s, base)
  }

  lemma InvInitially(s: State)
    requires Initial(s)
    ensures Inv(s, s.sequence)
  {
  }

  // What a writer's step keeps of the shared words.

  lemma SharedWriterStep(s: State, a: Action, base: nat)
    requires SharedInv(s, base) && Enabled(s, a) && !IsReaderAction(a) && !s.readLocked
    ensures SharedInv(Step(s, a), base)
  {
  }

  // What it keeps of the reader: the snapshot under way is out of date, or unlocked.

  lemma ReaderWriterStep(s: State, a: Action, base: nat)
    requires ReaderInv(s, base) && Enabled(s, a) && !IsReaderAction(a) && !s.readLocked
    requires s.writing <==> s.version % 2 == 1
    ensures ReaderInv(Step(s, a), base)
  {
    hide Complete;
    WordsKeepLength(s, a);
  }

  lemma WordsKeepLength(s: State, a: Action)
    requires Enabled(s, a)
    ensures |Step(s, a).words| == |s.words|
  {
  }

  lemma InvWriterStep(s: State, a: Action, base: nat)
    requires Inv(s, base) && Enabled(s, a) && !IsReaderAction(a)
    ensures Inv(Step(s, a), base)
  {
    hide SharedInv, ReaderInv;
    UnlockedWriter(s, a, base);
    SharedWriterStep(s, a, base);
    ReaderWriterStep(s, a, base);
  }

  lemma UnlockedWriter(s: State, a: Action, base: nat)
    requires Inv(s, base) && Enabled(s, a) && !IsReaderAction(a)
    ensures !s.readLocked && (s.writing <==> s.version % 2 == 1)
  {
    hide ReaderInv;
  }

  // What each of the reader's own steps keeps.

  lemma SharedReaderStep(s: State, a: Action, base: nat)
    requires SharedInv(s, base) && Enabled(s, a) && IsReaderAction(a)
    ensures SharedInv(Step(s, a), base)
  {
    hide Complete;
  }

  lemma LoadKeeps(s: State, base: nat)
    requires SharedInv(s, base) && ReaderInv(s, base) && Enabled(s, Load)
    ensures ReaderInv(Step(s, Load), base)
  {
    EvenSequence(base, s.version);
  }

  lemma EvenSequence(base: nat, version: nat)
    requires base % 2 == 0
    ensures (base + version) % SEQ_MODULUS % 2 == version % 2
  {
  }

  lemma CopyKeeps(s: State, i: nat, base: nat)
    requires ReaderInv(s, base) && Enabled(s, Copy(i))
    ensures ReaderInv(Step(s, Copy(i)), base)
  {
    hide Complete;
  }

  lemma RecheckKeeps(s: State, base: nat)
    requires SharedInv(s, base) && ReaderInv(s, base) && Enabled(s, Recheck)
    ensures ReaderInv(Step(s, Recheck), base)
  {
    var r := s.reader;
    if s.sequence == r.s1 {
      SameResidue(base + r.since, base + s.version);
    }
  }

  lemma SameResidue(x: nat, y: nat)
    requires x <= y && x % SEQ_MODULUS == y % SEQ_MODULUS
    ensures (y - x) % SEQ_MODULUS == 0
  {
  }

  lemma LockKeeps(s: State, a: Action, base: nat)
    requires ReaderInv(s, base) && Enabled(s, a) && (a.TakeLock? || a.LockRefused?)
    ensures ReaderInv(Step(s, a), base)
  {
  }

  lemma ReleaseKeeps(s: State, base: nat)
    requires Inv(s, base) && Enabled(s, Release)
    ensures ReaderInv(Step(s, Release), base)
  {
  }

  lemma InvReaderStep(s: State, a: Action, base: nat)
    requires Inv(s, base) && Enabled(s, a) && IsReaderAction(a)
    ensures Inv(Step(s, a), base)
  {
    SharedReaderStep(s, a, base);
    LockStep(s, a, base);
    hide SharedInv, ReaderInv, Step, Complete;
    match a
    case Load => LoadKeeps(s, base);
    case Copy(i) => CopyKeeps(s, i, base);
    case Recheck => RecheckKeeps(s, base);
    case TakeLock => LockKeeps(s, a, base);
    case LockRefused => LockKeeps(s, a, base);
    case Release => ReleaseKeeps(s, base);
  }

  lemma LockStep(s: State, a: Action, base: nat)
    requires Inv(s, base) && Enabled(s, a) && IsReaderAction(a)
    ensures var t := Step(s, a); t.readLocked ==> !t.writing && t.reader.LockedCopy? && t.reader.guard == ReadLock
  {
    hide SharedInv, ReaderInv, Complete;
  }

  lemma InvStep(s: State, a: Action, base: nat)
    requires Inv(s, base) && Enabled(s, a)
    ensures Inv(Step(s, a), base)
  {
    hide Inv, Step;
    if IsReaderAction(a) { InvReaderStep(s, a, base); } else { InvWriterStep(s, a, base); }
  }

  lemma {:induction false} InvRun(s: State, acts: seq<Action>, base: nat)
    requires Inv(s, base) && Runs(s, acts)
    ensures Inv(Final(s, acts), base)
    decreases |acts|
  {
    if acts != [] {
      InvStep(s, acts[0], base);
      InvRun(Step(s, acts[0]), acts[1..], base);
    }
  }

  // ----------------------------------------------------------------- safety

  ghost predicate IsCopyOf(snap: map<nat, int>, words: seq<int>) {
    Complete(snap, |words|) && Agrees(snap, words)
  }

  /** Over every interleaving, a snapshot the reader returns off the sequence word
      with fewer than 2^31 updates between its two loads, or off the lock, is the
      whole device state that was current when it returned. */
  lemma SnapshotIsCommitted(s: State, acts: seq<Action>)
    requires Initial(s) && Runs(s, acts)
    ensures var r := Final(s, acts).reader;
      r.Done? && r.guard != NoLock && r.lag < 0x1_0000_0000 ==>
        && 1 <= r.current <= |Final(s, acts).committed|
        && IsCopyOf(r.snap, Final(s, acts).committed[r.current - 1])
  {
    InvInitially(s);
    InvRun(s, acts, s.sequence);
  }

  // ------------------------------------------------------------- termination

  function Attempt(s: State): nat { |s.words| + 2 }

  /** Reader steps left, at most. */
  ghost function Budget(s: State): int {
    match s.reader
    case Begin => (SPIN_LIMIT - s.spins) * Attempt(s) + Attempt(s)
    case Copying(_, snap, _) => (SPIN_LIMIT - s.spins - 1) * Attempt(s) + |s.words| - |snap| + 1 + Attempt(s)
    case LockWait => Attempt(s)
    case LockedCopy(_, snap) => |s.words| - |snap| + 1
    case Done(_, _, _, _) => 0
  }

  lemma {:induction false} SnapSize(snap: map<nat, int>, n: nat)
    requires forall i :: i in snap ==> i < n
    ensures |snap| <= n
  {
    if n > 0 {
      SnapSize(snap - {n - 1}, n - 1);
      assert snap.Keys <= (snap - {n - 1}).Keys + {n - 1};
      Subset(snap.Keys, (snap - {n - 1}).Keys + {n - 1});
      assert |snap| == |snap.Keys| && |snap - {n - 1}| == |(snap - {n - 1}).Keys|;
    } else {
      assert snap == map[];
    }
  }

  lemma Subset(a: set<nat>, b: set<nat>)
    requires a <= b
    ensures |a| <= |b|
  {
    assert b == a + (b - a);
  }

  ghost function ReaderSteps(acts: seq<Action>): nat {
    if acts == [] then 0 else (if IsReaderAction(acts[0]) then 1 else 0) + ReaderSteps(acts[1..])
  }

  lemma BudgetPositive(s: State, base: nat)
    requires Inv(s, base)
    ensures Budget(s) >= 0
  {
    BudgetFacts(s, base);
  }

  lemma Product(a: nat, b: nat)
    ensures a * b >= 0 && (a + 1) * b == a * b + b
  {
  }

  /** Every reader step spends budget; no writer step gives any back. */
  lemma BudgetStep(s: State, a: Action, base: nat)
    requires Inv(s, base) && Enabled(s, a)
    ensures Budget(Step(s, a)) <= Budget(s) - if IsReaderAction(a) then 1 else 0
  {
    hide Inv, ReaderInv, Complete;
    BudgetFacts(s, base);
    if a.Copy? {
      assert |s.reader.snap[a.i := s.words[a.i]]| == |s.reader.snap| + 1;
    }
  }

  lemma BudgetFacts(s: State, base: nat)
    requires Inv(s, base)
    ensures s.reader.Copying? || s.reader.LockedCopy? ==> |s.reader.snap| <= |s.words|
    ensures s.reader.Copying? || s.reader.Begin? ==>
      var rest := (SPIN_LIMIT - s.spins - 1) * Attempt(s);
      s.spins < SPIN_LIMIT && rest >= 0 && (SPIN_LIMIT - s.spins) * Attempt(s) == rest + Attempt(s)
  {
    if s.reader.Copying? || s.reader.LockedCopy? {
      SnapSize(s.reader.snap, |s.words|);
    }
    if s.reader.Copying? || s.reader.Begin? {
      Product(SPIN_LIMIT - s.spins - 1, Attempt(s));
    }
  }

  lemma {:induction false} BudgetRun(s: State, acts: seq<Action>, base: nat)
    requires Inv(s, base) && Runs(s, acts)
    ensures ReaderSteps(acts) <= Budget(s)
    decreases |acts|
  {
    hide Budget;
    BudgetPositive(s, base);
    if acts != [] {
      InvStep(s, acts[0], base);
      BudgetStep(s, acts[0], base);
      BudgetRun(Step(s, acts[0]), acts[1..], base);
    }
  }

  /** The reader always exits: whatever the writers do, it takes at most one attempt
      per allowed spin and one locked copy. */
  lemma ReaderExits(s: State, acts: seq<Action>)
    requires Initial(s) && Runs(s, acts)
    ensures ReaderSteps(acts) <= 1025 * (|s.words| + 2)
  {
    InvInitially(s);
    BudgetRun(s, acts, s.sequence);
    Product(SPIN_LIMIT, Attempt(s));
  }

  /** ... and until it has returned it is never stuck, short of waiting for a writer
      that holds the lock. */
  lemma ReaderNeverStuck(s: State, base: nat) returns (a: Action)
    requires Inv(s, base) && !s.reader.Done?
    ensures IsReaderAction(a) && Enabled(s, a)
    ensures !s.writing ==> !a.LockRefused?
  {
    match s.reader
    case Begin => a := Load;
    case LockWait => a := if s.writing then LockRefused else TakeLock;
    case Copying(_, snap, _) =>
      if Complete(snap, |s.words|) { a := Recheck; } else { var i: nat :| i < |s.words| && i !in snap; a := Copy(i); }
    case LockedCopy(_, snap) =>
      if Complete(snap, |s.words|) { a := Release; } else { var i: nat :| i < |s.words| && i !in snap; a := Copy(i); }
  }

  // ------------------------------------------------ the 2^31 bound is sharp

  /** `n` whole updates of a two-word device, each storing 1 in both words. */
  function Updates(n: nat): seq<Action> {
    if n == 0 then [] else [WriteBegin, WriteWord(0, 1), WriteWord(1, 1), WriteEnd] + Updates(n - 1)
  }

  ghost predicate Updated(s: State, t: State, n: nat) {
    && t.reader == s.reader && t.spins == s.spins && !t.writing && !t.readLocked
    && t.sequence == (s.sequence + 2 * n) % SEQ_MODULUS && t.version == s.version + 2 * n
    && t.words == (if n == 0 then s.words else [1, 1])
    && |t.committed| == |s.committed| + n
    && (forall k :: 0 <= k < |s.committed| ==> t.committed[k] == s.committed[k])
    && (forall k :: |s.committed| <= k < |t.committed| ==> t.committed[k] == [1, 1])
  }

  lemma {:induction false} UpdatesRun(s: State, n: nat)
    requires !s.writing && !s.readLocked && |s.words| == 2 && s.sequence < SEQ_MODULUS
    ensures Runs(s, Updates(n)) && Updated(s, Final(s, Updates(n)), n)
    decreases n
  {
    hide Updated, Step;
    if n == 0 {
      UpdatedNot(s);
    } else {
      var u := [WriteBegin, WriteWord(0, 1), WriteWord(1, 1), WriteEnd];
      var s4 := OneUpdate(s);
      UpdatesRun(s4, n - 1);
      RunsConcat(s, u, Updates(n - 1));
      UpdatedMore(s, s4, Final(s4, Updates(n - 1)), n - 1);
    }
  }

  lemma UpdatedNot(s: State)
    requires !s.writing && !s.readLocked && s.sequence < SEQ_MODULUS
    ensures Updated(s, s, 0)
  {
  }

  lemma UpdatedMore(s: State, t: State, u: State, n: nat)
    requires Updated(s, t, 1) && Updated(t, u, n)
    ensures Updated(s, u, n + 1)
  {
    assert forall k :: 0 <= k < |s.committed| ==> u.committed[k] == t.committed[k];
  }

  lemma OneUpdate(s: State) returns (t: State)
    requires !s.writing && !s.readLocked && |s.words| == 2 && s.sequence < SEQ_MODULUS
    ensures var u := [WriteBegin, WriteWord(0, 1), WriteWord(1, 1), WriteEnd]; Runs(s, u) && t == Final(s, u)
    ensures Updated(s, t, 1) && |t.words| == 2 && !t.writing && !t.readLocked && t.sequence < SEQ_MODULUS
  {
    var u := [WriteBegin, WriteWord(0, 1), WriteWord(1, 1), WriteEnd];
    var s1 := Step(s, u[0]);
    var s2 := Step(s1, u[1]);
    var s3 := Step(s2, u[2]);
    t := Step(s3, u[3]);
    assert u[1..] == [u[1], u[2], u[3]] && u[2..] == [u[2], u[3]] && u[3..] == [u[3]];
    assert Runs(t, []) && Runs(s3, u[3..]);
    assert Runs(s2, u[2..]) by { assert u[2..][1..] == u[3..]; }
    assert Runs(s1, u[1..]) by { assert u[1..][1..] == u[2..]; }
    assert t.words == [1, 1];
  }

  lemma {:induction false} RunsConcat(s: State, a: seq<Action>, b: seq<Action>)
    requires Runs(s, a) && Runs(Final(s, a), b)
    ensures Runs(s, a + b) && Final(s, a + b) == Final(Final(s, a), b)
    decreases |a|
  {
    if a == [] {
      assert a + b == b;
    } else {
      assert (a + b)[1..] == a[1..] + b;
      RunsConcat(Step(s, a[0]), a[1..], b);
    }
  }

  const TornStart := State(0, [0, 0], false, false, Begin, 0, 0, [[0, 0]])

  function TornRun(n: nat): seq<Action> {
    [Load, Copy(0)] + (Updates(n) + [Copy(1), Recheck])
  }

  /** With exactly 2^31 updates between the loads seq is back where it was, and the
      reader returns half of one state and half of another. */
  lemma TornAfterWrap()
    ensures Initial(TornStart) && Runs(TornStart, TornRun(SEQ_MODULUS / 2))
    ensures var f := Final(TornStart, TornRun(SEQ_MODULUS / 2));
      f.reader.Done? && f.reader.guard == Sequence && f.reader.lag == SEQ_MODULUS
      && forall k :: 0 <= k < |f.committed| ==> !IsCopyOf(f.reader.snap, f.committed[k])
  {
    var n := SEQ_MODULUS / 2;
    var s1 := Step(TornStart, Load);
    var s2 := Step(s1, Copy(0));
    assert [Load, Copy(0)][1..] == [Copy(0)];
    assert Runs(s2, []) && Runs(s1, [Copy(0)]) && Runs(TornStart, [Load, Copy(0)]);
    assert Final(TornStart, [Load, Copy(0)]) == s2;
    UpdatesRun(s2, n);
    TornTail(Final(s2, Updates(n)));
    RunsConcat(s2, Updates(n), [Copy(1), Recheck]);
    RunsConcat(TornStart, [Load, Copy(0)], Updates(n) + [Copy(1), Recheck]);
  }

  lemma TornTail(s: State)
    requires s.reader == Copying(0, map[0 := 0], 0) && s.words == [1, 1]
    requires s.sequence == 0 && s.version == SEQ_MODULUS
    requires |s.committed| > 1 && s.committed[0] == [0, 0]
    requires forall k :: 1 <= k < |s.committed| ==> s.committed[k] == [1, 1]
    ensures Runs(s, [Copy(1), Recheck])
    ensures Final(s, [Copy(1), Recheck])
      == s.(reader := Done(Sequence, map[0 := 0, 1 := 1], |s.committed|, SEQ_MODULUS))
    ensures forall k :: 0 <= k < |s.committed| ==> !IsCopyOf(map[0 := 0, 1 := 1], s.committed[k])
  {
    var t := Step(s, Copy(1));
    assert [Copy(1), Recheck][1..] == [Recheck];
    assert Runs(Step(t, Recheck), []) && Runs(t, [Recheck]);
    forall k | 0 <= k < |s.committed| ensures !IsCopyOf(map[0 := 0, 1 := 1], s.committed[k]) {
      var snap := map[0 := 0, 1 := 1];
      assert 0 in snap && 1 in snap;
    }
  }
}
