/** What the methods of shared_spinner do: every call that runs alone, from every reachable state, and what
    a request for writing means over whole runs. The word is a number of readers times 4, plus 2 for a
    request, plus 1 for a writer. */
module SpinnerCalls {
  import opened Digits
  import opened SharedSpinner

  /** The word of each type has its number of bits, two of which are no part of the count. */
  lemma WordSize(ty: LockType)
    ensures ty.Modulus() == Pow(2, match ty case U8 => 8 case U16 => 16 case U32 => 32 case U64 => 64)
    ensures ty.Modulus() == 4 * ty.Capacity()
  {
    hide Pow;
    PowersOfTwo();
  }

  // ----- Calls that run alone -----

  /** No writer, no request for writing and, in the one-byte form, room for a reader. */
  predicate MayRead(ty: LockType, w: nat) {
    w % 4 == 0 && (ty.U8? ==> w < 128)
  }

  lemma ReachableInv(ty: LockType, n: nat, s: State)
    requires Reachable(ty, n, s)
    ensures Inv(ty, s) && |s.pcs| == n
  {
    var run :| IsRun(ty, n, run) && run[|run| - 1] == s;
    RunsKeepInv(ty, n, run);
  }

  /** try_lock_shared gets in exactly where it may, and the word then counts one reader more; otherwise it
      gives up and nothing has changed. */
  lemma TryLockSharedAlone(ty: LockType, n: nat, s: State, t: nat)
    requires Reachable(ty, n, s) && t < |s.pcs| && s.pcs[t] == Idle
    ensures MayRead(ty, s.word) ==>
              var s' := Solo(ty, s, t, TryLockShared, 3);
              s' == State((s.word + 4) % ty.Modulus(), s.pcs[t := Reader])
              && |s'.Readers()| == |s.Readers()| + 1 && s'.word / 4 == |s'.Readers()| % ty.Capacity()
    ensures !MayRead(ty, s.word) ==> Solo(ty, s, t, TryLockShared, 2) == s
  {
    hide Step, Solo, ty.Modulus, ty.Capacity, HasWrite, HasNeed, MayRead;
    ReachableInv(ty, n, s);
    SoloThree(ty, s, t, TryLockShared);
    SharedSteps(ty, s.word, TryLockShared, |s.Readers()|);
    ReadersWith(s, t, (s.word + 4) % ty.Modulus(), Reader);
    assert s.pcs[t := Idle] == s.pcs;
  }

  /** lock_shared gets in likewise; otherwise it looks again. */
  lemma LockSharedAlone(ty: LockType, n: nat, s: State, t: nat)
    requires Reachable(ty, n, s) && t < |s.pcs| && s.pcs[t] == Idle
    ensures MayRead(ty, s.word) ==>
              Solo(ty, s, t, LockShared, 3) == State((s.word + 4) % ty.Modulus(), s.pcs[t := Reader])
    ensures !MayRead(ty, s.word) ==> Solo(ty, s, t, LockShared, 2) == State(s.word, s.pcs[t := ShareLoad(true)])
  {
    hide Step, Solo, ty.Modulus, ty.Capacity, HasWrite, HasNeed, MayRead;
    ReachableInv(ty, n, s);
    SoloThree(ty, s, t, LockShared);
    SharedSteps(ty, s.word, LockShared, |s.Readers()|);
  }

  /** How many readers there are after one thread has gone on. */
  lemma ReadersWith(s: State, t: nat, w: nat, pc: Pc)
    requires t < |s.pcs|
    ensures |State(w, s.pcs[t := pc]).Readers()|
         == |s.Readers()| + (if pc.Counted() then 1 else 0) - (if s.pcs[t].Counted() then 1 else 0)
  {
    ReadersStepped(s, t, pc);
    assert State(w, s.pcs[t := pc]).Readers() == State(s.word, s.pcs[t := pc]).Readers();
  }

  lemma SharedSteps(ty: LockType, w: nat, call: Call, n: nat)
    requires w < ty.Modulus() && w / 4 == n % ty.Capacity() && (ty.U8? ==> n <= 32)
    requires call == TryLockShared || call == LockShared
    ensures var again := call == LockShared;
            var (w1, p1) := Step(ty, w, Idle, call);
            var (w2, p2) := Step(ty, w1, p1, call);
            && (!MayRead(ty, w) ==> w2 == w && p2 == if again then ShareLoad(true) else Idle)
            && (MayRead(ty, w) ==> Step(ty, w2, p2, call) == ((w + 4) % ty.Modulus(), Reader))
    ensures (w + 4) % ty.Modulus() / 4 == (n + 1) % ty.Capacity()
  {
    LowBits(w / 4, w % 4);
    ReaderAdded(ty.Capacity(), w, n);
    if ty.U8? {
      TopBit(w);
    }
    Bits(w);
    hide HasWrite, HasNeed, ty.HighBit, ty.Modulus, ty.Capacity;
  }

  /** The two low bits. */
  lemma Bits(w: nat)
    ensures HasWrite(w) == (w % 2 == 1) && HasNeed(w) == (w % 4 >= 2)
    ensures w % 4 == (if HasWrite(w) then 1 else 0) + if HasNeed(w) then 2 else 0
  {
    LowBits(w / 4, w % 4);
  }

  /** try_lock acquires exactly a word that is 0; otherwise it gives up and nothing has changed. */
  lemma TryLockAlone(ty: LockType, n: nat, s: State, t: nat)
    requires Reachable(ty, n, s) && t < |s.pcs| && s.pcs[t] == Idle
    ensures s.word == 0 ==> Solo(ty, s, t, TryLock, 3) == State(1, s.pcs[t := Writer])
    ensures s.word != 0 ==> Solo(ty, s, t, TryLock, if s.word % 4 == 0 then 3 else 2) == s
  {
    SoloThree(ty, s, t, TryLock);
    Bits(s.word);
    hide HasWrite, HasNeed, Solo;
    assert s.pcs[t := Idle] == s.pcs;
  }

  /** lock acquires a word that is 0; otherwise, the request for writing is there after three steps at most, and
      the thread waits. */
  lemma LockAlone(ty: LockType, n: nat, s: State, t: nat)
    requires Reachable(ty, n, s) && t < |s.pcs| && s.pcs[t] == Idle
    ensures s.word == 0 ==> Solo(ty, s, t, Lock, 2) == State(1, s.pcs[t := Writer])
    ensures s.word != 0 && s.word % 4 >= 2 ==> Solo(ty, s, t, Lock, 2) == State(s.word, s.pcs[t := LockCas(2)])
    ensures s.word != 0 && s.word % 4 < 2 ==> Solo(ty, s, t, Lock, 3) == State(s.word + 2, s.pcs[t := LockCas(2)])
  {
    SoloThree(ty, s, t, Lock);
    Bits(s.word);
    hide HasWrite, HasNeed, Solo;
  }

  /** unlock takes away the writer and every request, and leaves the count of readers. */
  lemma UnlockAlone(ty: LockType, n: nat, s: State, t: nat, call: Call)
    requires Reachable(ty, n, s) && t < |s.pcs| && s.pcs[t] == Writer
    ensures var s' := Solo(ty, s, t, call, 3);
            s'.word % 4 == 0 && s'.word / 4 == s.word / 4 && s'.pcs == s.pcs[t := Idle]
  {
    SoloThree(ty, s, t, call);
    LowBits(s.word / 4, 0);
    hide Solo;
  }

  /** unlock_shared takes away one reader and leaves the bits. */
  lemma UnlockSharedAlone(ty: LockType, n: nat, s: State, t: nat, call: Call)
    requires Reachable(ty, n, s) && t < |s.pcs| && s.pcs[t] == Reader
    ensures var s' := Solo(ty, s, t, call, 3);
            && s'.pcs == s.pcs[t := Idle] && |s'.Readers()| == |s.Readers()| - 1
            && s'.word / 4 == |s'.Readers()| % ty.Capacity() && s'.word % 4 == s.word % 4
  {
    hide Solo, Step, ty.Modulus, ty.Capacity, HasWrite, HasNeed;
    ReachableInv(ty, n, s);
    SoloThree(ty, s, t, call);
    assert t in s.Readers();
    var w := Solo(ty, s, t, call, 3).word;
    ReadersWith(s, t, w, Idle);
    UnshareSteps(ty, s.word, call, |s.Readers()|);
    SameBits(w, s.word);
  }

  lemma UnshareSteps(ty: LockType, w: nat, call: Call, n: nat)
    requires w < ty.Modulus() && w / 4 == n % ty.Capacity() && n > 0
    ensures var (w1, p1) := Step(ty, w, Reader, call);
            var (w2, p2) := Step(ty, w1, p1, call);
            var (w3, p3) := Step(ty, w2, p2, call);
            p3 == Idle && w3 / 4 == (n - 1) % ty.Capacity() && HasWrite(w3) == HasWrite(w) && HasNeed(w3) == HasNeed(w)
  {
    hide HasWrite, HasNeed, ty.Capacity;
    ReaderRemoved(ty.Capacity(), w, n);
  }

  lemma SameBits(v: nat, w: nat)
    requires HasWrite(v) == HasWrite(w) && HasNeed(v) == HasNeed(w)
    ensures v % 4 == w % 4
  {
    Bits(v);
    Bits(w);
    hide HasWrite, HasNeed;
  }

  // ----- A request for writing -----

  /** Thread `t` takes the step from `s` to `s'`. */
  ghost predicate StepOf(ty: LockType, s: State, s': State, t: nat) {
    t < |s.pcs| && exists call :: s' == s.Stepped(ty, t, call)
  }

  /** Thread `t`, inside lock(), has failed to acquire the lock, and has left the request for writing or found it
      there. */
  ghost predicate HasAsked(ty: LockType, s: State, s': State, t: nat) {
    StepOf(ty, s, s', t) && s.pcs[t].Locking() && !s'.pcs[t].HoldsWrite() && s'.pcs[t] != LockOr
  }

  /** A thread inside lock() that fails asks: in this step, or in its next. It stays inside. */
  lemma FailureAsks(ty: LockType, n: nat, s: State, s': State, t: nat)
    requires Reachable(ty, n, s) && StepOf(ty, s, s', t) && s.pcs[t].Locking() && !s'.pcs[t].HoldsWrite()
    ensures s'.pcs[t].Locking()
    ensures HasAsked(ty, s, s', t) || (s.pcs[t].LockCas? && s'.pcs[t] == LockOr && s'.word == s.word)
    ensures HasAsked(ty, s, s', t) ==> s'.word % 4 >= 2 && s'.word / 4 == s.word / 4 && s'.word % 2 == s.word % 2
  {
    ReachableInv(ty, n, s);
    BitsOnly(s.word, ty.Capacity());
    Bits(s.word);
    Bits(s'.word);
    hide HasWrite, HasNeed, FetchOrNeed;
  }

  /** Some thread acquires the lock for writing, or gives it back. */
  ghost predicate Passes(s: State, s': State) {
    exists u :: 0 <= u < |s.pcs| == |s'.pcs| && s.pcs[u].HoldsWrite() != s'.pcs[u].HoldsWrite()
  }

  /** Once a thread has asked, the request stays, and no thread becomes a reader, until some thread acquires the
      lock for writing or gives it back. */
  lemma {:induction false} RequestStays(ty: LockType, n: nat, run: seq<State>, k: nat, j: nat)
    requires IsRun(ty, n, run) && k <= j < |run| && run[k].word % 4 >= 2
    requires forall m :: k < m <= j ==> !Passes(run[m - 1], run[m])
    ensures run[j].word % 4 >= 2 && |run[k].pcs| == |run[j].pcs|
    ensures forall u :: 0 <= u < |run[j].pcs| && run[j].pcs[u].HoldsRead() ==> run[k].pcs[u].HoldsRead()
    decreases j
  {
    hide IsRun, Next, Reachable;
    if k < j {
      RequestStays(ty, n, run, k, j - 1);
      RunReaches(ty, n, run, j - 1);
      NextInRun(ty, n, run, j);
      assert !Passes(run[j - 1], run[j]);
      hide Passes;
      RequestStep(ty, n, run[j - 1], run[j]);
    }
  }

  lemma NextInRun(ty: LockType, n: nat, run: seq<State>, i: nat)
    requires IsRun(ty, n, run) && 0 < i < |run|
    ensures Next(ty, run[i - 1], run[i])
  {
  }

  lemma RunReaches(ty: LockType, n: nat, run: seq<State>, i: nat)
    requires IsRun(ty, n, run) && i < |run|
    ensures Reachable(ty, n, run[i])
  {
    var part := run[..i + 1];
    forall m | 0 < m < |part| ensures Next(ty, part[m - 1], part[m]) {
      assert Next(ty, run[m - 1], run[m]);
    }
    assert part[|part| - 1] == run[i];
  }

  lemma RequestStep(ty: LockType, n: nat, s: State, s': State)
    requires Reachable(ty, n, s) && Next(ty, s, s') && s.word % 4 >= 2 && !Passes(s, s')
    ensures s'.word % 4 >= 2 && |s.pcs| == |s'.pcs|
    ensures forall u :: 0 <= u < |s'.pcs| && s'.pcs[u].HoldsRead() ==> s.pcs[u].HoldsRead()
  {
    hide Step, ty.Modulus, ty.Capacity, HasWrite, HasNeed;
    ReachableInv(ty, n, s);
    var t: nat, call :| t < |s.pcs| && s' == s.Stepped(ty, t, call);
    Bits(s.word);
    Bits(s'.word);
    NoNewReader(ty, s, t, call);
    assert s.pcs[t].Counted() ==> t in s.Readers();
    assert s.pcs[t].HoldsWrite() == s'.pcs[t].HoldsWrite();
    NeedKept(ty, s.word, s.pcs[t], call, |s.Readers()|);
  }

  lemma NeedKept(ty: LockType, w: nat, pc: Pc, call: Call, n: nat)
    requires PcValid(ty, pc) && w < ty.Modulus() && w / 4 == n % ty.Capacity() && HasNeed(w)
    requires pc.Counted() ==> n > 0
    requires Step(ty, w, pc, call).1.HoldsWrite() == pc.HoldsWrite()
    ensures HasNeed(Step(ty, w, pc, call).0)
  {
    BitsOnly(w, ty.Capacity());
    ReaderAdded(ty.Capacity(), w, n);
    if n > 0 {
      ReaderRemoved(ty.Capacity(), w, n);
    }
    hide HasNeed, HasWrite, ty.HighBit, FetchOrNeed, ClearWriteNeed;
  }

  /** Writers are preferred: from the step in which a thread has asked for the lock in vain, until some thread
      acquires it for writing or gives it back, the request is in the word and readers only leave. */
  lemma WritersPreferred(ty: LockType, n: nat, run: seq<State>, k: nat, t: nat, j: nat)
    requires IsRun(ty, n, run) && 0 < k <= j < |run| && HasAsked(ty, run[k - 1], run[k], t)
    requires forall m :: k < m <= j ==> !Passes(run[m - 1], run[m])
    ensures run[j].word % 4 >= 2 && |run[k].pcs| == |run[j].pcs|
    ensures forall u :: 0 <= u < |run[j].pcs| && run[j].pcs[u].HoldsRead() ==> run[k].pcs[u].HoldsRead()
  {
    RunReaches(ty, n, run, k - 1);
    FailureAsks(ty, n, run[k - 1], run[k], t);
    RequestStays(ty, n, run, k, j);
  }
}
