/** The read-write spinlock of seq/lock.hpp: one atomic word, any number of threads, one atomic
    operation on the word per step. */
module SharedSpinner {

  // ----- The word -----

  const WRITE := 1
  const NEED_LOCK := 2
  const READ := 4

  /** The unsigned types the lock can be instantiated with. */
  datatype LockType = U8 | U16 | U32 | U64 {

    /** How many reader units fit in the word: 2^(bits - 2). */
    function Capacity(): nat {
      match this
      case U8 => 0x40
      case U16 => 0x4000
      case U32 => 0x4000_0000
      case U64 => 0x4000_0000_0000_0000
    }

    /** Arithmetic on the word wraps around at this value. */
    function Modulus(): nat {
      4 * Capacity()
    }

    /** Whether the word has its highest bit set. */
    predicate HighBit(w: nat) {
      w / (Modulus() / 2) % 2 == 1
    }
  }

  predicate HasWrite(w: nat) {
    w % 2 == 1
  }

  predicate HasNeed(w: nat) {
    w / 2 % 2 == 1
  }

  function FetchOrNeed(w: nat): nat {
    if HasNeed(w) then w else w + NEED_LOCK
  }

  /** fetch_and with the complement of `write | need_lock`. */
  function ClearWriteNeed(w: nat): nat {
    w - w % 4
  }

  // ----- One thread -----

  /** What a thread is about to do. */
  datatype Pc =
    | Idle
    | LockCas(expected: nat)                  // lock: compare and exchange
    | LockOr                                // failed_lock: set need_lock
    | TryLoad                               // try_lock: look at the word
    | TryCas                                // try_lock: compare and exchange
    | Writer
    | UnlockCheck                           // unlock: the debug assertion
    | UnlockAnd                             // unlock: clear write and need_lock
    | ShareLoad(again: bool)                // try_lock_shared (again: from lock_shared): look
    | ShareCas(content: nat, again: bool)   // the one-byte form: compare and exchange
    | ShareAdd(again: bool)                 // the wide form: add a reader
    | ShareUndo(again: bool)                // the wide form: take the reader back
    | Reader
    | UnshareCheck                          // unlock_shared: the debug assertion
    | UnshareSub                            // unlock_shared: subtract the reader
  {
    predicate HoldsWrite() {
      Writer? || UnlockCheck? || UnlockAnd?
    }

    predicate HoldsRead() {
      Reader? || UnshareCheck? || UnshareSub?
    }

    /** The word contains a reader unit of this thread's. */
    predicate Counted() {
      HoldsRead() || ShareUndo?
    }

    /** Inside lock(), without the lock. */
    predicate Locking() {
      LockCas? || LockOr?
    }
  }

  /** What an idle thread may start, and what the holder of the lock does when it is done. */
  datatype Call = Lock | TryLock | LockShared | TryLockShared

  function Retry(again: bool): Pc {
    if again then ShareLoad(true) else Idle
  }

  /** One step of a thread: at most one atomic operation on the word `w`. */
  function Step(ty: LockType, w: nat, pc: Pc, call: Call): (nat, Pc) {
    match pc
    case Idle =>
      (w, match call
          case Lock => LockCas(0)
          case TryLock => TryLoad
          case LockShared => ShareLoad(true)
          case TryLockShared => ShareLoad(false))
    case LockCas(expected) =>
      if w == expected then (WRITE, Writer)
      else if !HasNeed(w) then (w, LockOr)
      else (w, LockCas(NEED_LOCK))
    case LockOr => (FetchOrNeed(w), LockCas(NEED_LOCK))
    case TryLoad => if HasNeed(w) || HasWrite(w) then (w, Idle) else (w, TryCas)
    case TryCas => if w == 0 then (WRITE, Writer) else (w, Idle)
    case Writer => (w, UnlockCheck)
    case UnlockCheck => (w, UnlockAnd)
    case UnlockAnd => (ClearWriteNeed(w), Idle)
    case ShareLoad(again) =>
      if HasNeed(w) || HasWrite(w) || (ty.U8? && ty.HighBit(w)) then (w, Retry(again))
      else if ty.U8? then (w, ShareCas(w, again))
      else (w, ShareAdd(again))
    case ShareCas(content, again) =>
      if w == content then ((content + READ) % ty.Modulus(), Reader) else (w, Retry(again))
    case ShareAdd(again) =>
      ((w + READ) % ty.Modulus(), if HasNeed(w) || HasWrite(w) then ShareUndo(again) else Reader)
    case ShareUndo(again) => ((w + ty.Modulus() - READ) % ty.Modulus(), Retry(again))
    case Reader => (w, UnshareCheck)
    case UnshareCheck => (w, UnshareSub)
    case UnshareSub => ((w + ty.Modulus() - READ) % ty.Modulus(), Idle)
  }

  // ----- All threads -----

  /** The word and the program counters of all threads. */
  datatype State = State(word: nat, pcs: seq<Pc>) {

    function Stepped(ty: LockType, t: nat, call: Call): State
      requires t < |pcs|
    {
      var (w, pc) := Step(ty, word, pcs[t], call);
      State(w, pcs[t := pc])
    }

    ghost function Readers(): set<nat> {
      set t: nat | t < |pcs| && pcs[t].Counted()
    }

    /** A writer excludes everybody else; readers exclude writers. */
    ghost predicate Exclusive() {
      forall t, u :: 0 <= t < |pcs| && 0 <= u < |pcs| && t != u && pcs[t].HoldsWrite() ==>
        !pcs[u].HoldsWrite() && !pcs[u].HoldsRead()
    }

    /** No thread is at a debug assertion that does not hold. */
    ghost predicate AssertsHold() {
      forall t :: 0 <= t < |pcs| ==>
        && (pcs[t].UnlockCheck? ==> HasWrite(word))
        && (pcs[t].UnshareCheck? ==> word > 0)
    }
  }

  function Initial(n: nat): State {
    State(0, seq(n, _ => Idle))
  }

  /** An interleaving: in each step some thread goes on. */
  ghost predicate IsRun(ty: LockType, n: nat, run: seq<State>) {
    && run != [] && run[0] == Initial(n)
    && forall i :: 0 < i < |run| ==> Next(ty, run[i - 1], run[i])
  }

  ghost predicate Next(ty: LockType, s: State, s': State) {
    exists t: nat, call :: t < |s.pcs| && s' == s.Stepped(ty, t, call)
  }

  ghost predicate Reachable(ty: LockType, n: nat, s: State) {
    exists run :: IsRun(ty, n, run) && run[|run| - 1] == s
  }

  // ----- What every step keeps -----

  ghost predicate WriterExists(pcs: seq<Pc>) {
    exists t :: 0 <= t < |pcs| && pcs[t].HoldsWrite()
  }

  ghost predicate WaiterExists(pcs: seq<Pc>) {
    exists t :: 0 <= t < |pcs| && pcs[t] == LockCas(NEED_LOCK)
  }

  /** The local variables of a thread make sense. */
  predicate PcValid(ty: LockType, pc: Pc) {
    match pc
    case LockCas(expected) => expected == 0 || expected == NEED_LOCK
    case ShareCas(content, _) => ty.U8? && content < 0x80 && content % 4 == 0
    case ShareAdd(_) => !ty.U8?
    case ShareUndo(_) => !ty.U8?
    case _ => true
  }

  /** The word consists of the write bit, the need_lock bit and, above them, the number of readers,
      as far as there is room for it; for any number of threads. */
  ghost predicate Inv(ty: LockType, s: State) {
    && s.word < ty.Modulus()
    && s.word / 4 == |s.Readers()| % ty.Capacity()
    && (HasWrite(s.word) <==> WriterExists(s.pcs))
    && (HasNeed(s.word) ==> WaiterExists(s.pcs))
    && (forall t, u ::
          0 <= t < |s.pcs| && 0 <= u < |s.pcs| && s.pcs[t].HoldsWrite() && s.pcs[u].HoldsWrite() ==> t == u)
    && (forall t :: 0 <= t < |s.pcs| ==> PcValid(ty, s.pcs[t]))
    && (ty.U8? ==> |s.Readers()| <= 32)
  }

  /** How the set of readers changes with one program counter. */
  lemma ReadersStepped(s: State, t: nat, pc: Pc)
    requires t < |s.pcs|
    ensures var s' := State(s.word, s.pcs[t := pc]);
            && s'.Readers() == (if pc.Counted() then s.Readers() + {t} else s.Readers() - {t})
            && |s'.Readers()| == |s.Readers()| + (if pc.Counted() then 1 else 0) - (if s.pcs[t].Counted() then 1 else 0)
  {
    var s' := State(s.word, s.pcs[t := pc]);
    assert t in s.Readers() <==> s.pcs[t].Counted();
    assert s'.Readers() == if pc.Counted() then s.Readers() + {t} else s.Readers() - {t};
  }

  lemma StepKeepsInv(ty: LockType, s: State, t: nat, call: Call)
    requires Inv(ty, s) && t < |s.pcs|
    ensures Inv(ty, s.Stepped(ty, t, call))
  {
    var s' := s.Stepped(ty, t, call);
    var pc, pc' := s.pcs[t], s'.pcs[t];
    ReadersStepped(s, t, pc');
    assert s'.Readers() == State(s.word, s'.pcs).Readers();
    WordStepped(ty, s.word, pc, call, |s.Readers()|, |s'.Readers()|);
    assert PcValid(ty, pc');
    forall u | 0 <= u < |s'.pcs| ensures PcValid(ty, s'.pcs[u]) {
      assert u != t ==> s'.pcs[u] == s.pcs[u];
    }
    BitsStepped(ty, s, t, call);
  }

  lemma MultipleGrows(k: nat, d: int)
    requires 0 < k
    ensures d >= 1 ==> k * d >= k
    ensures d <= -1 ==> k * d + k <= 0
  {
  }

  lemma ModUnique(n: nat, k: nat, q: nat, r: nat)
    requires r < k && n == k * q + r
    ensures n % k == r
  {
    var d := n / k - q;
    assert n == k * (n / k) + n % k;
    assert k * d == r - n % k;
    MultipleGrows(k, d);
  }

  lemma ModNext(n: nat, k: nat)
    requires 0 < k
    ensures (n + 1) % k == if n % k == k - 1 then 0 else n % k + 1
  {
    var q: int, r: int := n / k, n % k;
    assert n == k * q + r;
    MultipleGrows(k, q);
    if r == k - 1 {
      ModUnique(n + 1, k, q + 1, 0);
    } else {
      ModUnique(n + 1, k, q, r + 1);
    }
  }

  /** The two low bits and what is above them. */
  lemma LowBits(q: nat, b: nat)
    requires b < 4
    ensures var w := 4 * q + b;
            w / 4 == q && w % 4 == b && HasWrite(w) == HasWrite(b) && HasNeed(w) == HasNeed(b)
  {
  }

  /** Adding a reader unit, modulo the word size, adds one reader modulo the capacity. */
  lemma ReaderAdded(k: nat, w: nat, n: nat)
    requires 0 < k && w < 4 * k && w / 4 == n % k
    ensures var w' := (w + READ) % (4 * k);
            && w' < 4 * k && w' / 4 == (n + 1) % k && HasWrite(w') == HasWrite(w) && HasNeed(w') == HasNeed(w)
            && (w + READ < 4 * k ==> w' == w + READ)
  {
    var q, b := w / 4, w % 4;
    ModNext(n, k);
    LowBits(q, b);
    if q == k - 1 {
      ModUnique(w + READ, 4 * k, 1, b);
      LowBits(0, b);
    } else {
      ModUnique(w + READ, 4 * k, 0, w + READ);
      LowBits(q + 1, b);
    }
  }

  /** Subtracting one. */
  lemma ReaderRemoved(k: nat, w: nat, n: nat)
    requires 0 < k && w < 4 * k && w / 4 == n % k && 0 < n
    ensures var w' := (w + 4 * k - READ) % (4 * k);
            w' < 4 * k && w' / 4 == (n - 1) % k && HasWrite(w') == HasWrite(w) && HasNeed(w') == HasNeed(w)
  {
    var q, b := w / 4, w % 4;
    ModNext(n - 1, k);
    LowBits(q, b);
    if q == 0 {
      ModUnique(w + 4 * k - READ, 4 * k, 0, w + 4 * k - READ);
      LowBits(k - 1, b);
    } else {
      ModUnique(w + 4 * k - READ, 4 * k, 1, w - READ);
      LowBits(q - 1, b);
    }
  }

  /** Setting or clearing the low bits leaves the readers alone. */
  lemma BitsOnly(w: nat, k: nat)
    requires w < 4 * k
    ensures FetchOrNeed(w) / 4 == w / 4 && FetchOrNeed(w) < 4 * k
    ensures HasNeed(FetchOrNeed(w)) && HasWrite(FetchOrNeed(w)) == HasWrite(w)
    ensures ClearWriteNeed(w) / 4 == w / 4 && !HasWrite(ClearWriteNeed(w)) && !HasNeed(ClearWriteNeed(w))
  {
    var q, b := w / 4, w % 4;
    LowBits(q, b);
    LowBits(q, 0);
    if !HasNeed(w) {
      LowBits(q, b + 2);
    }
  }

  /** The pcs from which a step counts a reader in or out. */
  predicate Counts(pc: Pc) {
    pc.ShareCas? || pc.ShareAdd? || pc.ShareUndo? || pc.UnshareSub?
  }

  /** The arithmetic of a step: the part of the word above the two bits counts readers. */
  lemma WordStepped(ty: LockType, w: nat, pc: Pc, call: Call, n: nat, n': nat)
    requires w < ty.Modulus() && w / 4 == n % ty.Capacity() && PcValid(ty, pc)
    requires n' == n + (if Step(ty, w, pc, call).1.Counted() then 1 else 0) - (if pc.Counted() then 1 else 0)
    requires ty.U8? ==> n <= 32
    ensures WordOk(ty, w, pc, call, n')
  {
    if Counts(pc) {
      CountingStep(ty, w, pc, call, n, n');
    } else {
      OtherStep(ty, w, pc, call, n, n');
    }
  }

  ghost predicate WordOk(ty: LockType, w: nat, pc: Pc, call: Call, n': nat) {
    var (w', pc') := Step(ty, w, pc, call);
    && w' < ty.Modulus() && w' / 4 == n' % ty.Capacity() && (ty.U8? ==> n' <= 32)
    && PcValid(ty, pc')
    && (Counts(pc) ==> HasWrite(w') == HasWrite(w) && HasNeed(w') == HasNeed(w))
  }

  lemma CountingStep(ty: LockType, w: nat, pc: Pc, call: Call, n: nat, n': nat)
    requires w < ty.Modulus() && w / 4 == n % ty.Capacity() && PcValid(ty, pc) && Counts(pc)
    requires n' == n + (if Step(ty, w, pc, call).1.Counted() then 1 else 0) - (if pc.Counted() then 1 else 0)
    requires ty.U8? ==> n <= 32
    ensures WordOk(ty, w, pc, call, n')
  {
    var k := ty.Capacity();
    assert ty.Modulus() == 4 * k && k >= 0x40 && (ty.U8? ==> k == 0x40);
    ReaderAdded(k, w, n);
    if 0 < n {
      ReaderRemoved(k, w, n);
    }
    if ty.U8? {
      Narrow(w, n);
    }
    hide ty.Modulus, ty.Capacity, ty.HighBit, HasWrite, HasNeed;
  }

  lemma OtherStep(ty: LockType, w: nat, pc: Pc, call: Call, n: nat, n': nat)
    requires w < ty.Modulus() && w / 4 == n % ty.Capacity() && PcValid(ty, pc) && !Counts(pc)
    requires n' == n + (if Step(ty, w, pc, call).1.Counted() then 1 else 0) - (if pc.Counted() then 1 else 0)
    requires ty.U8? ==> n <= 32
    ensures WordOk(ty, w, pc, call, n')
  {
    var k := ty.Capacity();
    assert ty.Modulus() == 4 * k && k >= 0x40;
    BitsOnly(w, k);
    if ty.U8? {
      Narrow(w, n);
    }
    hide ty.Modulus, ty.Capacity, ty.HighBit, HasWrite, HasNeed, FetchOrNeed, ClearWriteNeed;
  }

  /** In the one-byte form a reader enters only while there are fewer than 32. */
  lemma Narrow(w: nat, n: nat)
    requires w < 0x100 && w / 4 == n % 0x40 && n <= 32
    ensures !U8.HighBit(w) && !HasNeed(w) && !HasWrite(w) ==> w < 0x80 && w % 4 == 0
    ensures w < 0x80 ==> n < 32
  {
    TopBit(w);
    LowBits(w / 4, w % 4);
    hide U8.HighBit, U8.Modulus;
  }

  lemma TopBit(w: nat)
    requires w < 0x100
    ensures U8.HighBit(w) == (w >= 0x80)
  {
    assert U8.Modulus() == 0x100;
    assert w / 0x80 == if w >= 0x80 then 1 else 0;
  }

  /** The bits of a step: the write bit stands for a holder, need_lock for a waiting thread. */
  lemma BitsStepped(ty: LockType, s: State, t: nat, call: Call)
    requires Inv(ty, s) && t < |s.pcs|
    requires var pc := s.pcs[t];
             Counts(pc) ==>
               var w' := Step(ty, s.word, pc, call).0;
               HasWrite(w') == HasWrite(s.word) && HasNeed(w') == HasNeed(s.word)
    ensures var s' := s.Stepped(ty, t, call);
            && (HasWrite(s'.word) <==> WriterExists(s'.pcs))
            && (HasNeed(s'.word) ==> WaiterExists(s'.pcs))
            && (forall t, u ::
                  0 <= t < |s'.pcs| && 0 <= u < |s'.pcs| && s'.pcs[t].HoldsWrite() && s'.pcs[u].HoldsWrite() ==> t == u)
  {
    var s' := s.Stepped(ty, t, call);
    var pc, pc' := s.pcs[t], s'.pcs[t];
    OwnBits(ty, s.word, pc, call);
    hide Step, HasWrite, HasNeed, ty.Capacity, ty.Modulus;
    assert forall u :: 0 <= u < |s.pcs| && u != t ==> s'.pcs[u] == s.pcs[u];
    if HasWrite(s'.word) && !pc'.HoldsWrite() {
      var u :| 0 <= u < |s.pcs| && s.pcs[u].HoldsWrite();
      assert s'.pcs[u].HoldsWrite();
    }
    if WriterExists(s'.pcs) && !pc'.HoldsWrite() {
      var u :| 0 <= u < |s'.pcs| && s'.pcs[u].HoldsWrite();
      assert s.pcs[u].HoldsWrite();
    }
    if HasNeed(s'.word) && pc' != LockCas(NEED_LOCK) {
      var u :| 0 <= u < |s.pcs| && s.pcs[u] == LockCas(NEED_LOCK);
      assert s'.pcs[u] == LockCas(NEED_LOCK);
    }
  }

  /** What a step does to the bits, from the point of view of the thread that takes it. */
  lemma OwnBits(ty: LockType, w: nat, pc: Pc, call: Call)
    requires PcValid(ty, pc) && w < ty.Modulus()
    requires Counts(pc) ==> var w' := Step(ty, w, pc, call).0; HasWrite(w') == HasWrite(w) && HasNeed(w') == HasNeed(w)
    ensures var (w', pc') := Step(ty, w, pc, call);
            && (pc'.HoldsWrite() && !pc.HoldsWrite() ==> !HasWrite(w) && HasWrite(w') && !HasNeed(w'))
            && (pc'.HoldsWrite() && pc.HoldsWrite() ==> w' == w)
            && (pc.HoldsWrite() && !pc'.HoldsWrite() ==> !HasWrite(w') && !HasNeed(w'))
            && (!pc.HoldsWrite() && !pc'.HoldsWrite() ==> HasWrite(w') == HasWrite(w))
            && (HasNeed(w') ==> HasNeed(w) || pc' == LockCas(NEED_LOCK))
            && (pc == LockCas(NEED_LOCK) && HasNeed(w') ==> pc' == LockCas(NEED_LOCK))
  {
    BitsOnly(w, ty.Capacity());
    hide ty.Capacity, ty.Modulus, FetchOrNeed, ClearWriteNeed, ty.HighBit;
  }

  // ----- Safety over whole runs -----

  /** No more readers than threads, and fewer if some thread is none. */
  lemma {:induction false} ReadersBound(s: State, n: nat)
    requires n <= |s.pcs|
    ensures |set t: nat | t < n && s.pcs[t].Counted()| <= n
  {
    if n > 0 {
      ReadersBound(s, n - 1);
      var rest := set t: nat | t < n - 1 && s.pcs[t].Counted();
      assert (set t: nat | t < n && s.pcs[t].Counted()) == if s.pcs[n - 1].Counted() then rest + {n - 1} else rest;
    }
  }

  lemma ReadersAtMost(s: State)
    ensures |s.Readers()| <= |s.pcs|
    ensures forall t: nat :: t < |s.pcs| && !s.pcs[t].Counted() ==> |s.Readers()| < |s.pcs|
  {
    ReadersBound(s, |s.pcs|);
    forall t: nat | t < |s.pcs| && !s.pcs[t].Counted() ensures |s.Readers()| < |s.pcs| {
      ReadersStepped(s, t, Reader);
      ReadersBound(State(s.word, s.pcs[t := Reader]), |s.pcs|);
    }
  }

  /** Readers exclude writers as long as the number of readers that a step can meet is less than
      what the word can count to. */
  lemma StepKeepsExclusive(ty: LockType, s: State, t: nat, call: Call)
    requires Inv(ty, s) && s.Exclusive() && t < |s.pcs|
    requires ty.U8? || |s.pcs| <= ty.Capacity()
    ensures s.Stepped(ty, t, call).Exclusive()
  {
    hide Step, HasWrite, HasNeed, ty.Capacity, ty.Modulus, PcValid;
    var s' := s.Stepped(ty, t, call);
    var pc, pc' := s.pcs[t], s'.pcs[t];
    EntersFree(ty, s.word, pc, call);
    StepKeepsInv(ty, s, t, call);
    forall u, v | 0 <= u < |s'.pcs| && 0 <= v < |s'.pcs| && u != v && s'.pcs[u].HoldsWrite()
      ensures !s'.pcs[v].HoldsRead()
    {
      if u == t && !pc.HoldsWrite() {
        NoReaders(ty, s, t);
        assert !s.pcs[v].Counted() && s.pcs[v] == s'.pcs[v];
      } else {
        assert s.pcs[u].HoldsWrite();
      }
    }
  }

  /** A word that counts no reader, where one more thread could still be counted: there is none. */
  lemma NoReaders(ty: LockType, s: State, t: nat)
    requires Inv(ty, s) && s.word / 4 == 0 && (ty.U8? || |s.pcs| <= ty.Capacity())
    requires t < |s.pcs| && !s.pcs[t].Counted()
    ensures forall u :: 0 <= u < |s.pcs| ==> !s.pcs[u].Counted()
  {
    ReadersAtMost(s);
    assert |s.Readers()| < ty.Capacity();
    assert s.Readers() == {};
    forall u | 0 <= u < |s.pcs| ensures !s.pcs[u].Counted() {
      assert u !in s.Readers();
    }
  }

  /** A thread becomes the writer only when the word counts no reader and no writer, and a holding
      reader only when there is neither a writer nor a request for writing. */
  lemma EntersFree(ty: LockType, w: nat, pc: Pc, call: Call)
    requires PcValid(ty, pc)
    ensures var pc' := Step(ty, w, pc, call).1;
            && (pc'.HoldsWrite() && !pc.HoldsWrite() ==> w / 4 == 0 && !HasWrite(w) && !pc.Counted())
            && (pc'.HoldsRead() && !pc.HoldsRead() ==> !HasWrite(w) && !HasNeed(w) && !pc.Counted())
  {
    LowBits(w / 4, w % 4);
  }

  lemma {:induction false} RunsKeepInv(ty: LockType, n: nat, run: seq<State>)
    requires IsRun(ty, n, run)
    ensures var s := run[|run| - 1];
            Inv(ty, s) && |s.pcs| == n && (ty.U8? || n <= ty.Capacity() ==> s.Exclusive())
  {
    if |run| == 1 {
      assert Initial(n).Readers() == {};
    } else {
      var before := run[..|run| - 1];
      forall i | 0 < i < |before| ensures Next(ty, before[i - 1], before[i]) {
        assert Next(ty, run[i - 1], run[i]);
      }
      RunsKeepInv(ty, n, before);
      var s := before[|before| - 1];
      assert Next(ty, run[|run| - 2], run[|run| - 1]);
      var t: nat, call :| t < |s.pcs| && run[|run| - 1] == s.Stepped(ty, t, call);
      StepKeepsInv(ty, s, t, call);
      if ty.U8? || n <= ty.Capacity() {
        StepKeepsExclusive(ty, s, t, call);
      }
    }
  }

  /** In a reachable state the assertions hold, and the word counts the readers exactly, if the
      threads cannot all be counted at once. */
  lemma InvImpliesAsserts(ty: LockType, s: State)
    requires Inv(ty, s) && (ty.U8? || |s.pcs| < ty.Capacity())
    ensures s.AssertsHold() && s.word / 4 == |s.Readers()|
  {
    ReadersAtMost(s);
    assert |s.Readers()| % ty.Capacity() == |s.Readers()|;
    forall t | 0 <= t < |s.pcs| && s.pcs[t].UnshareCheck? ensures s.word > 0 {
      assert t in s.Readers();
    }
  }

  /** Whether every reachable state excludes writers from readers and other writers. */
  ghost predicate AlwaysExclusive(ty: LockType, n: nat) {
    forall s :: Reachable(ty, n, s) ==> s.Exclusive()
  }

  ghost predicate AssertsNeverFire(ty: LockType, n: nat) {
    forall s :: Reachable(ty, n, s) ==> s.AssertsHold()
  }

  ghost predicate NeverOverflows(ty: LockType, n: nat) {
    forall s :: Reachable(ty, n, s) ==> s.word / 4 == |s.Readers()|
  }

  /** The lock is exclusive over all interleavings of `n` threads exactly if it is the one-byte form
      or there are at most 2^(bits - 2) threads. */
  lemma ExclusiveIff(ty: LockType, n: nat)
    ensures AlwaysExclusive(ty, n) <==> ty.U8? || n <= ty.Capacity()
  {
    if ty.U8? || n <= ty.Capacity() {
      forall s | Reachable(ty, n, s) ensures s.Exclusive() {
        var run :| IsRun(ty, n, run) && run[|run| - 1] == s;
        RunsKeepInv(ty, n, run);
      }
    } else {
      var k := ty.Capacity();
      var run := ReadersRun(ty, n, k);
      run := OneStep(ty, n, run, k, Lock);
      run := OneStep(ty, n, run, k, Lock);
      var s := run[|run| - 1];
      assert s.pcs[k].HoldsWrite() && s.pcs[0].HoldsRead();
      assert Reachable(ty, n, s) && !s.Exclusive();
    }
  }

  /** The debug assertions of unlock and unlock_shared never fire exactly if it is the one-byte form
      or there are fewer than 2^(bits - 2) threads; and under the same condition the count of
      readers never overflows. */
  lemma AssertsIff(ty: LockType, n: nat)
    ensures AssertsNeverFire(ty, n) <==> ty.U8? || n < ty.Capacity()
    ensures NeverOverflows(ty, n) <==> ty.U8? || n < ty.Capacity()
  {
    if ty.U8? || n < ty.Capacity() {
      forall s | Reachable(ty, n, s) ensures s.AssertsHold() && s.word / 4 == |s.Readers()| {
        var run :| IsRun(ty, n, run) && run[|run| - 1] == s;
        RunsKeepInv(ty, n, run);
        InvImpliesAsserts(ty, s);
      }
    } else {
      var k := ty.Capacity();
      var run := ReadersRun(ty, n, k);
      run := OneStep(ty, n, run, 0, Lock);
      var s := run[|run| - 1];
      assert s.pcs[0].UnshareCheck? && s.word == 0;
      assert Reachable(ty, n, s) && !s.AssertsHold();
      assert 0 in s.Readers();
    }
  }

  lemma OneStep(ty: LockType, n: nat, run: seq<State>, t: nat, call: Call) returns (longer: seq<State>)
    requires IsRun(ty, n, run) && t < |run[|run| - 1].pcs|
    ensures IsRun(ty, n, longer) && longer[|longer| - 1] == run[|run| - 1].Stepped(ty, t, call)
  {
    var s := run[|run| - 1];
    longer := run + [s.Stepped(ty, t, call)];
    assert Next(ty, s, s.Stepped(ty, t, call));
    forall i | 0 < i < |longer| ensures Next(ty, longer[i - 1], longer[i]) {
      if i < |run| {
        assert Next(ty, run[i - 1], run[i]);
      }
    }
  }

  /** The first `j` of `n` threads hold the lock as readers. */
  ghost predicate JustReaders(ty: LockType, n: nat, j: nat, s: State) {
    && |s.pcs| == n && s.word == 4 * (j % ty.Capacity())
    && forall t :: 0 <= t < n ==> s.pcs[t] == if t < j then Reader else Idle
  }

  /** In the wide form any number of threads can become readers one after another. */
  lemma {:induction false} ReadersRun(ty: LockType, n: nat, j: nat) returns (run: seq<State>)
    requires !ty.U8? && j <= n
    ensures IsRun(ty, n, run) && JustReaders(ty, n, j, run[|run| - 1])
  {
    if j == 0 {
      run := [Initial(n)];
    } else {
      run := ReadersRun(ty, n, j - 1);
      ReaderJoins(ty, n, j, run[|run| - 1]);
      hide *;
      run := OneStep(ty, n, run, j - 1, TryLockShared);
      run := OneStep(ty, n, run, j - 1, TryLockShared);
      run := OneStep(ty, n, run, j - 1, TryLockShared);
    }
  }

  /** Three steps make a thread a reader. */
  lemma ReaderJoins(ty: LockType, n: nat, j: nat, s: State)
    requires !ty.U8? && 0 < j <= n && JustReaders(ty, n, j - 1, s)
    ensures var t: nat := j - 1;
            JustReaders(ty, n, j,
                        s.Stepped(ty, t, TryLockShared).Stepped(ty, t, TryLockShared).Stepped(ty, t, TryLockShared))
  {
    JoinedWord(ty, j, s.word);
  }

  lemma JoinedWord(ty: LockType, j: nat, w: nat)
    requires !ty.U8? && 0 < j && w == 4 * ((j - 1) % ty.Capacity())
    ensures var (w1, p1) := Step(ty, w, Idle, TryLockShared);
            var (w2, p2) := Step(ty, w1, p1, TryLockShared);
            Step(ty, w2, p2, TryLockShared) == (4 * (j % ty.Capacity()), Reader)
  {
    LowBits((j - 1) % ty.Capacity(), 0);
    ReaderAdded(ty.Capacity(), w, j - 1);
    var (w1, p1) := Step(ty, w, Idle, TryLockShared);
    var (w2, p2) := Step(ty, w1, p1, TryLockShared);
    var w' := Step(ty, w2, p2, TryLockShared).0;
    LowBits(w' / 4, w' % 4);
  }

  // ----- Writer preference -----

  /** While a writer holds the lock or asks for it, no step makes a thread a holding reader. */
  lemma NoNewReader(ty: LockType, s: State, t: nat, call: Call)
    requires Inv(ty, s) && t < |s.pcs| && (HasNeed(s.word) || HasWrite(s.word))
    ensures forall u :: 0 <= u < |s.pcs| && s.Stepped(ty, t, call).pcs[u].HoldsRead() ==> s.pcs[u].HoldsRead()
  {
    EntersFree(ty, s.word, s.pcs[t], call);
  }

  /** The request is no phantom: whenever need_lock is set, some thread is inside lock() and has not
      acquired it. */
  lemma NoPhantomWriter(ty: LockType, n: nat, s: State)
    requires Reachable(ty, n, s) && HasNeed(s.word)
    ensures exists t :: 0 <= t < |s.pcs| && s.pcs[t].Locking()
  {
    var run :| IsRun(ty, n, run) && run[|run| - 1] == s;
    RunsKeepInv(ty, n, run);
    var t :| 0 <= t < |s.pcs| && s.pcs[t] == LockCas(NEED_LOCK);
    assert s.pcs[t].Locking();
  }

  /** The state after `k` steps of one thread alone, which starts `call` when it is idle. */
  function Solo(ty: LockType, s: State, t: nat, call: Call, k: nat): State
    requires t < |s.pcs|
    ensures |Solo(ty, s, t, call, k).pcs| == |s.pcs|
    decreases k
  {
    if k == 0 then s else Solo(ty, s.Stepped(ty, t, call), t, call, k - 1)
  }

  /** The first three of them, as steps on the word. */
  lemma SoloThree(ty: LockType, s: State, t: nat, call: Call)
    requires t < |s.pcs|
    ensures var (w1, p1) := Step(ty, s.word, s.pcs[t], call);
            var (w2, p2) := Step(ty, w1, p1, call);
            var (w3, p3) := Step(ty, w2, p2, call);
            && Solo(ty, s, t, call, 1) == State(w1, s.pcs[t := p1])
            && Solo(ty, s, t, call, 2) == State(w2, s.pcs[t := p2])
            && Solo(ty, s, t, call, 3) == State(w3, s.pcs[t := p3])
  {
    hide Step;
    var s1 := s.Stepped(ty, t, call);
    var s2 := s1.Stepped(ty, t, call);
    var s3 := s2.Stepped(ty, t, call);
    assert Solo(ty, s, t, call, 1) == Solo(ty, s1, t, call, 0) == s1;
    assert Solo(ty, s, t, call, 2) == Solo(ty, s1, t, call, 1) == Solo(ty, s2, t, call, 0) == s2;
    assert Solo(ty, s, t, call, 3) == Solo(ty, s1, t, call, 2) == Solo(ty, s2, t, call, 1) == Solo(ty, s3, t, call, 0);
    assert s2.pcs == s.pcs[t := s2.pcs[t]] && s3.pcs == s.pcs[t := s3.pcs[t]];
  }

  /** With nobody holding the lock and no reader about to back out, a thread inside lock() that runs
      alone acquires it within three atomic steps. */
  lemma LockSucceedsAlone(ty: LockType, n: nat, s: State, t: nat)
    requires Reachable(ty, n, s) && t < |s.pcs| && s.pcs[t].Locking()
    requires forall u :: 0 <= u < |s.pcs| ==> !s.pcs[u].HoldsWrite() && !s.pcs[u].Counted()
    ensures exists k: nat :: k <= 3 && Solo(ty, s, t, Lock, k).pcs[t] == Writer
  {
    var run :| IsRun(ty, n, run) && run[|run| - 1] == s;
    RunsKeepInv(ty, n, run);
    FreeWord(ty, s);
    SoloThree(ty, s, t, Lock);
    ThreeSteps(ty, s.word, s.pcs[t]);
    hide Step, Solo;
    assert Solo(ty, s, t, Lock, 1).pcs[t] == Writer || Solo(ty, s, t, Lock, 2).pcs[t] == Writer
           || Solo(ty, s, t, Lock, 3).pcs[t] == Writer;
  }

  lemma FreeWord(ty: LockType, s: State)
    requires Inv(ty, s) && forall u :: 0 <= u < |s.pcs| ==> !s.pcs[u].HoldsWrite() && !s.pcs[u].Counted()
    ensures s.word == 0 || s.word == NEED_LOCK
  {
    assert s.Readers() == {};
    LowBits(s.word / 4, s.word % 4);
  }

  lemma ThreeSteps(ty: LockType, w: nat, pc: Pc)
    requires PcValid(ty, pc) && pc.Locking() && (w == 0 || w == NEED_LOCK)
    ensures var (w1, pc1) := Step(ty, w, pc, Lock);
            var (w2, pc2) := Step(ty, w1, pc1, Lock);
            var (w3, pc3) := Step(ty, w2, pc2, Lock);
            pc1 == Writer || pc2 == Writer || pc3 == Writer
  {
    assert !HasNeed(0) && HasNeed(NEED_LOCK) && FetchOrNeed(0) == NEED_LOCK == FetchOrNeed(NEED_LOCK);
  }

  // ----- The class -----

  /** The lock itself: its one field and the operations of std::atomic that its methods use. */
  class Spinner {
    const ty: LockType
    var d_lock: nat

    ghost predicate Valid()
      reads this
    {
      d_lock < ty.Modulus()
    }

    constructor (ty: LockType)
      ensures Valid() && d_lock == 0 && this.ty == ty
    {
      this.ty := ty;
      d_lock := 0;
    }

    method CompareExchange(expected: nat, desired: nat) returns (ok: bool, loaded: nat)
      requires Valid() && desired < ty.Modulus()
      modifies this
      ensures Valid() && loaded == old(d_lock) && ok == (loaded == expected)
      ensures d_lock == if ok then desired else old(d_lock)
    {
      loaded := d_lock;
      ok := loaded == expected;
      if ok {
        d_lock := desired;
      }
    }

    method FetchAdd(delta: nat) returns (loaded: nat)
      requires Valid()
      modifies this
      ensures Valid() && loaded == old(d_lock) && d_lock == (old(d_lock) + delta) % ty.Modulus()
    {
      loaded := d_lock;
      d_lock := (d_lock + delta) % ty.Modulus();
    }

    /** The next step of a thread, as the method it is in takes it. */
    method TakeStep(pc: Pc, call: Call) returns (next: Pc)
      requires Valid() && PcValid(ty, pc)
      modifies this
      ensures Valid() && (d_lock, next) == Step(ty, old(d_lock), pc, call)
    {
      var ok, loaded;
      BitsOnly(d_lock, ty.Capacity());
      match pc {
        case Idle =>
          next := match call
            case Lock => LockCas(0)
            case TryLock => TryLoad
            case LockShared => ShareLoad(true)
            case TryLockShared => ShareLoad(false);
        case LockCas(expected) =>
          ok, loaded := CompareExchange(expected, WRITE);
          next := if ok then Writer else if !HasNeed(loaded) then LockOr else LockCas(NEED_LOCK);
        case LockOr =>
          d_lock := FetchOrNeed(d_lock);
          next := LockCas(NEED_LOCK);
        case TryLoad =>
          next := if HasNeed(d_lock) || HasWrite(d_lock) then Idle else TryCas;
        case TryCas =>
          ok, loaded := CompareExchange(0, WRITE);
          next := if ok then Writer else Idle;
        case Writer =>
          next := UnlockCheck;
        case UnlockCheck =>
          next := UnlockAnd;
        case UnlockAnd =>
          d_lock := ClearWriteNeed(d_lock);
          next := Idle;
        case ShareLoad(again) =>
          var content := d_lock;
          next := if HasNeed(content) || HasWrite(content) || (ty.U8? && ty.HighBit(content)) then Retry(again)
                  else if ty.U8? then ShareCas(content, again) else ShareAdd(again);
        case ShareCas(content, again) =>
          ok, loaded := CompareExchange(content, (content + READ) % ty.Modulus());
          next := if ok then Reader else Retry(again);
        case ShareAdd(again) =>
          loaded := FetchAdd(READ);
          next := if HasNeed(loaded) || HasWrite(loaded) then ShareUndo(again) else Reader;
        case ShareUndo(again) =>
          loaded := FetchAdd(ty.Modulus() - READ);
          next := Retry(again);
        case Reader =>
          next := UnshareCheck;
        case UnshareCheck =>
          next := UnshareSub;
        case UnshareSub =>
          loaded := FetchAdd(ty.Modulus() - READ);
          next := Idle;
      }
    }
  }
}
