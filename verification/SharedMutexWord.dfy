/** The state word of ting::shared_mutex and ting::upgrade_mutex: two top bits and a reader count in the rest.
    Each method is one critical section written with the source's masks; its contract says that it refines the
    same section on the decoded word. */
module SharedMutexWord {

  type Word = bv32

  /** The number a word stands for, by counting down to zero. */
  function ToNat(x: Word): nat
    decreases x
  {
    if x == 0 then 0 else 1 + ToNat(x - 1)
  }

  lemma AddOne(x: Word)
    requires x + 1 != 0
    ensures ToNat(x + 1) == ToNat(x) + 1
  {
  }

  lemma SubOne(x: Word)
    requires x != 0
    ensures ToNat(x - 1) == ToNat(x) - 1
  {
  }

  lemma Cancel(x: Word, y: Word)
    requires x - 1 == y - 1
    ensures x == y
  {
  }

  /** Two words that count the same are the same word. */
  lemma {:induction false} ToNatInjective(x: Word, y: Word)
    requires ToNat(x) == ToNat(y)
    ensures x == y
    decreases ToNat(x)
  {
    if x != 0 {
      ToNatInjective(x - 1, y - 1);
      Cancel(x, y);
    }
  }
}

/** ting::upgrade_mutex. */
module UpgradeMutexWord {
  import opened SharedMutexSections
  import opened SharedMutexWord

  const WRITE_ENTERED: Word := 0x8000_0000
  const UPGRADABLE_ENTERED: Word := 0x4000_0000
  const N_READERS: Word := 0x3FFF_FFFF

  ghost const MAX_READERS: nat := ToNat(N_READERS)

  ghost function Decode(s: Word): Flags {
    Flags(s & WRITE_ENTERED != 0, s & UPGRADABLE_ENTERED != 0, ToNat(s & N_READERS))
  }

  /** The masks share no bit: storing a count leaves the two flags alone. */
  lemma StoreCount(s: Word, num: Word)
    requires num & !N_READERS == 0
    ensures var r := (s & !N_READERS) | num;
            && r & N_READERS == num
            && r & WRITE_ENTERED == s & WRITE_ENTERED
            && r & UPGRADABLE_ENTERED == s & UPGRADABLE_ENTERED
  {
  }

  lemma SetFlags(s: Word)
    ensures var r := s | WRITE_ENTERED;
            r & N_READERS == s & N_READERS && r & WRITE_ENTERED != 0 && r & UPGRADABLE_ENTERED == s & UPGRADABLE_ENTERED
    ensures var r := s | UPGRADABLE_ENTERED;
            r & N_READERS == s & N_READERS && r & WRITE_ENTERED == s & WRITE_ENTERED && r & UPGRADABLE_ENTERED != 0
  {
  }

  lemma ClearFlags(s: Word)
    ensures var r := s & !WRITE_ENTERED;
            r & N_READERS == s & N_READERS && r & WRITE_ENTERED == 0 && r & UPGRADABLE_ENTERED == s & UPGRADABLE_ENTERED
    ensures var r := s & !UPGRADABLE_ENTERED;
            r & N_READERS == s & N_READERS && r & WRITE_ENTERED == s & WRITE_ENTERED && r & UPGRADABLE_ENTERED == 0
  {
  }

  lemma CountRoom(s: Word)
    ensures s & N_READERS != N_READERS ==> (s & N_READERS) + 1 != 0 && ((s & N_READERS) + 1) & !N_READERS == 0
    ensures s & N_READERS != 0 ==> ((s & N_READERS) - 1) & !N_READERS == 0
  {
  }

  lemma FullIsMask(num: Word)
    ensures num == N_READERS <==> ToNat(num) == MAX_READERS
  {
    if ToNat(num) == MAX_READERS {
      ToNatInjective(num, N_READERS);
    }
  }

  lemma LastButOne(num: Word)
    ensures num == N_READERS - 1 <==> ToNat(num) == MAX_READERS - 1
  {
    SubOne(N_READERS);
    if ToNat(num) == ToNat(N_READERS - 1) {
      ToNatInjective(num, N_READERS - 1);
    }
  }

  lemma FlagIsOneBit(s: Word)
    ensures s & WRITE_ENTERED == 0 || s & WRITE_ENTERED == WRITE_ENTERED
    ensures s & UPGRADABLE_ENTERED == 0 || s & UPGRADABLE_ENTERED == UPGRADABLE_ENTERED
  {
  }

  lemma WordIsItsFields(s: Word, r: Word)
    requires s & WRITE_ENTERED == r & WRITE_ENTERED
    requires s & UPGRADABLE_ENTERED == r & UPGRADABLE_ENTERED
    requires s & N_READERS == r & N_READERS
    ensures s == r
  {
  }

  /** Decoding loses nothing, so the source may compare whole words. */
  lemma DecodeInjective(s: Word, r: Word)
    requires Decode(s) == Decode(r)
    ensures s == r
  {
    ToNatInjective(s & N_READERS, r & N_READERS);
    FlagIsOneBit(s);
    FlagIsOneBit(r);
    WordIsItsFields(s, r);
  }

  lemma DecodeConstants()
    ensures Decode(0) == UNLOCKED
    ensures Decode(WRITE_ENTERED) == WRITTEN
    ensures Decode(1) == Flags(false, false, 1)
    ensures Decode(UPGRADABLE_ENTERED | 1) == Flags(false, true, 1)
  {
  }

  /** `state_ & write_entered_` */
  method WriteEntered(s: Word) returns (b: bool)
    ensures b == Decode(s).writer
  {
    b := s & WRITE_ENTERED != 0;
  }

  /** `state_ & (write_entered_ | upgradable_entered_)` */
  method AnyEntered(s: Word) returns (b: bool)
    ensures b == (Decode(s).writer || Decode(s).upgrader)
  {
    b := s & (WRITE_ENTERED | UPGRADABLE_ENTERED) != 0;
  }

  /** `state_ & n_readers_` */
  method AnyReaders(s: Word) returns (b: bool)
    ensures b == (Decode(s).readers != 0)
  {
    b := s & N_READERS != 0;
  }

  /** `(state_ & n_readers_) == n_readers_` */
  method ReadersFull(s: Word) returns (b: bool)
    ensures b == (Decode(s).readers == MAX_READERS)
  {
    FullIsMask(s & N_READERS);
    b := s & N_READERS == N_READERS;
  }

  /** `(state_ & n_readers_) == 1` */
  method OneReader(s: Word) returns (b: bool)
    ensures b == (Decode(s).readers == 1)
  {
    assert ToNat(1) == 1 by { SubOne(1); }
    if Decode(s).readers == 1 {
      ToNatInjective(s & N_READERS, 1);
    }
    b := s & N_READERS == 1;
  }

  /** Whole-word comparison with one of the constants the source compares with. */
  method IsWord(s: Word, r: Word) returns (b: bool)
    ensures b == (Decode(s) == Decode(r))
  {
    if Decode(s) == Decode(r) {
      DecodeInjective(s, r);
    }
    b := s == r;
  }

  /** `state_ |= write_entered_` */
  method SetWriter(s: Word) returns (r: Word)
    ensures Decode(r) == Decode(s).(writer := true)
  {
    SetFlags(s);
    r := s | WRITE_ENTERED;
  }

  /** `state_ &= ~write_entered_` */
  method ClearWriter(s: Word) returns (r: Word)
    ensures Decode(r) == Decode(s).(writer := false)
  {
    ClearFlags(s);
    r := s & !WRITE_ENTERED;
  }

  /** `state_ |= upgradable_entered_` */
  method SetUpgrader(s: Word) returns (r: Word)
    ensures Decode(r) == Decode(s).(upgrader := true)
  {
    SetFlags(s);
    r := s | UPGRADABLE_ENTERED;
  }

  /** `state_ &= ~upgradable_entered_` */
  method ClearUpgrader(s: Word) returns (r: Word)
    ensures Decode(r) == Decode(s).(upgrader := false)
  {
    ClearFlags(s);
    r := s & !UPGRADABLE_ENTERED;
  }

  /** `num_readers = (state_ & n_readers_) + 1; state_ &= ~n_readers_; state_ |= num_readers;` */
  method PlusOneReader(s: Word) returns (r: Word)
    requires Decode(s).readers != MAX_READERS
    ensures Decode(r) == Decode(s).(readers := Decode(s).readers + 1)
  {
    assert s & N_READERS != N_READERS;
    var num := (s & N_READERS) + 1;
    CountRoom(s);
    StoreCount(s, num);
    AddOne(s & N_READERS);
    r := s & !N_READERS;
    r := r | num;
  }

  /** `num_readers = (state_ & n_readers_) - 1; state_ &= ~n_readers_; state_ |= num_readers;` */
  method MinusOneReader(s: Word) returns (r: Word, num: Word)
    requires Decode(s).readers > 0
    ensures Decode(r) == Decode(s).(readers := ToNat(num))
    ensures ToNat(num) == Decode(s).readers - 1
  {
    var count := s & N_READERS;
    CountRoom(s);
    SubOne(count);
    num := count - 1;
    StoreCount(s, num);
    r := s & !N_READERS;
    r := r | num;
  }

  /** The two tests of `unlock_shared` on the count it has just stored. */
  method CountTests(num: Word) returns (none: bool, lastButOne: bool)
    ensures none == (ToNat(num) == 0)
    ensures lastButOne == (ToNat(num) == MAX_READERS - 1)
  {
    LastButOne(num);
    none := num == 0;
    lastButOne := num == N_READERS - 1;
  }

  class UpgradeMutex {
    var state: Word

    ghost function Contents(): Flags
      reads this
    {
      Decode(state)
    }

    constructor ()
      ensures Contents() == UNLOCKED
    {
      state := 0;
      new;
      DecodeConstants();
    }

    method EnterExclusive(op: Op) returns (phase: Phase)
      requires IsExclusiveLocker(op)
      modifies this
      ensures Section(Contents(), phase, WakeNone) == Enter(op, old(Contents()), MAX_READERS)
    {
      var entered := AnyEntered(state);
      if entered {
        return AtGate1(op, false);
      }
      state := SetWriter(state);
      phase := PassGate2(op);
    }

    /** `while (state_ & n_readers_) gate2_.wait(lk);` up to the next wait. */
    method PassGate2(op: Op) returns (phase: Phase)
      ensures Section(Contents(), phase, WakeNone) == AwaitReaders(op, Contents())
    {
      var readers := AnyReaders(state);
      return if readers then AtGate2(op, false) else Running(Writer);
    }

    method EnterTryLock() returns (phase: Phase)
      modifies this
      ensures Section(Contents(), phase, WakeNone) == Enter(TryLock, old(Contents()), MAX_READERS)
    {
      DecodeConstants();
      var unlocked := IsWord(state, 0);
      if unlocked {
        state := WRITE_ENTERED;
        return Running(Writer);
      }
      return Running(NoRole);
    }

    method EnterUnlock() returns (phase: Phase)
      modifies this
      ensures Section(Contents(), phase, WakeAllGate1) == Enter(Unlock, old(Contents()), MAX_READERS)
    {
      DecodeConstants();
      state := 0;
      return Running(NoRole);
    }

    method EnterShared(op: Op) returns (phase: Phase)
      requires op in {LockShared, TryLockShared, TryLockSharedUntil}
      modifies this
      ensures Section(Contents(), phase, WakeNone) == Enter(op, old(Contents()), MAX_READERS)
    {
      var entered := WriteEntered(state);
      var full := ReadersFull(state);
      if entered || full {
        return if op == TryLockShared then Running(NoRole) else AtGate1(op, false);
      }
      state := PlusOneReader(state);
      return Running(Reader);
    }

    method EnterUnlockShared() returns (phase: Phase, wake: Wake)
      requires CanEnter(UnlockShared, Contents())
      modifies this
      ensures Section(Contents(), phase, wake) == Enter(UnlockShared, old(Contents()), MAX_READERS)
    {
      phase, wake := Running(NoRole), WakeNone;
      var num;
      state, num := MinusOneReader(state);
      var none, lastButOne := CountTests(num);
      var entered := WriteEntered(state);
      if entered {
        if none {
          wake := WakeOneGate2;
        }
      } else {
        if lastButOne {
          wake := WakeOneGate1;
        }
      }
    }

    method EnterUpgrade(op: Op) returns (phase: Phase)
      requires op in {LockUpgrade, TryLockUpgrade, TryLockUpgradeUntil}
      modifies this
      ensures Section(Contents(), phase, WakeNone) == Enter(op, old(Contents()), MAX_READERS)
    {
      var entered := AnyEntered(state);
      var full := ReadersFull(state);
      if entered || full {
        return if op == TryLockUpgrade then Running(NoRole) else AtGate1(op, false);
      }
      state := PlusOneReader(state);
      state := SetUpgrader(state);
      return Running(Upgrader);
    }

    method EnterUnlockUpgrade() returns (phase: Phase)
      requires CanEnter(UnlockUpgrade, Contents())
      modifies this
      ensures Section(Contents(), phase, WakeNone) == Enter(UnlockUpgrade, old(Contents()), MAX_READERS)
    {
      var num;
      state, num := MinusOneReader(state);
      state := ClearUpgrader(state);
      return Owing(NoRole);
    }

    method EnterSharedToExclusive(op: Op) returns (phase: Phase)
      requires op == TryUnlockSharedAndLock || op == TryUnlockSharedAndLockUntil
      requires CanEnter(op, Contents())
      modifies this
      ensures Section(Contents(), phase, WakeNone) == Enter(op, old(Contents()), MAX_READERS)
    {
      DecodeConstants();
      var alone := IsWord(state, 1);
      if alone {
        state := WRITE_ENTERED;
        return Running(Writer);
      }
      return if op == TryUnlockSharedAndLock then Running(Reader) else AtGate2(op, false);
    }

    method EnterExclusiveToShared() returns (phase: Phase)
      modifies this
      ensures Section(Contents(), phase, WakeNone) == Enter(UnlockAndLockShared, old(Contents()), MAX_READERS)
    {
      DecodeConstants();
      state := 1;
      return Owing(Reader);
    }

    method EnterSharedToUpgrade(op: Op) returns (phase: Phase)
      requires op == TryUnlockSharedAndLockUpgrade || op == TryUnlockSharedAndLockUpgradeUntil
      requires CanEnter(op, Contents())
      modifies this
      ensures Section(Contents(), phase, WakeNone) == Enter(op, old(Contents()), MAX_READERS)
    {
      var entered := AnyEntered(state);
      if !entered {
        state := SetUpgrader(state);
        return Running(Upgrader);
      }
      return if op == TryUnlockSharedAndLockUpgrade then Running(Reader) else AtGate2(op, false);
    }

    method EnterUpgradeToShared() returns (phase: Phase)
      requires CanEnter(UnlockUpgradeAndLockShared, Contents())
      modifies this
      ensures Section(Contents(), phase, WakeNone)
           == Enter(UnlockUpgradeAndLockShared, old(Contents()), MAX_READERS)
    {
      state := ClearUpgrader(state);
      return Owing(Reader);
    }

    method EnterUpgradeToExclusive() returns (phase: Phase)
      requires CanEnter(UnlockUpgradeAndLock, Contents())
      modifies this
      ensures Section(Contents(), phase, WakeNone) == Enter(UnlockUpgradeAndLock, old(Contents()), MAX_READERS)
    {
      var num;
      state, num := MinusOneReader(state);
      state := ClearUpgrader(state);
      state := SetWriter(state);
      phase := PassGate2(UnlockUpgradeAndLock);
    }

    method EnterTryUpgradeToExclusive() returns (phase: Phase)
      requires CanEnter(TryUnlockUpgradeAndLock, Contents())
      modifies this
      ensures Section(Contents(), phase, WakeNone)
           == Enter(TryUnlockUpgradeAndLock, old(Contents()), MAX_READERS)
    {
      DecodeConstants();
      var alone := IsWord(state, UPGRADABLE_ENTERED | 1);
      if alone {
        state := WRITE_ENTERED;
        return Running(Writer);
      }
      return Running(Upgrader);
    }

    method EnterTimedUpgradeToExclusive() returns (phase: Phase)
      requires CanEnter(TryUnlockUpgradeAndLockUntil, Contents())
      modifies this
      ensures Section(Contents(), phase, WakeNone)
           == Enter(TryUnlockUpgradeAndLockUntil, old(Contents()), MAX_READERS)
    {
      DecodeConstants();
      var alone := OneReader(state);
      if !alone {
        return AtGate2(TryUnlockUpgradeAndLockUntil, false);
      }
      state := WRITE_ENTERED;
      return Running(Writer);
    }

    method EnterExclusiveToUpgrade() returns (phase: Phase)
      modifies this
      ensures Section(Contents(), phase, WakeNone) == Enter(UnlockAndLockUpgrade, old(Contents()), MAX_READERS)
    {
      DecodeConstants();
      state := UPGRADABLE_ENTERED | 1;
      return Owing(Upgrader);
    }

    /** The deadline passes at gate 2 while readers remain. */
    method GiveUpAtGate2() returns (phase: Phase)
      modifies this
      ensures Section(Contents(), phase, WakeNone) == GiveUp(AtGate2(TryLockUntil, false), old(Contents()))
    {
      state := ClearWriter(state);
      return Running(NoRole);
    }
  }
}
