/** Critical sections of ting::shared_mutex and ting::upgrade_mutex, on the decoded state word.

    Every member function of the two classes runs under `mut_`; it gives `mut_` up only inside a wait on one of
    the two gates. A critical section is therefore one atomic step from a decoded word to a decoded word. It also
    says where the calling thread is afterwards and which gate it notified. */
module SharedMutexSections {

  /** The decoded word: is a writer entered, is an upgrader entered, how many readers are counted. */
  datatype Flags = Flags(writer: bool, upgrader: bool, readers: nat)

  const UNLOCKED := Flags(false, false, 0)
  const WRITTEN := Flags(true, false, 0)

  /** What a thread owns. A writer that still waits for readers to leave already has the role `Writer`. */
  datatype Role = NoRole | Reader | Upgrader | Writer

  datatype Op =
    | Lock | TryLock | TryLockUntil | Unlock
    | LockShared | TryLockShared | TryLockSharedUntil | UnlockShared
    | LockUpgrade | TryLockUpgrade | TryLockUpgradeUntil | UnlockUpgrade
    | TryUnlockSharedAndLock | TryUnlockSharedAndLockUntil | UnlockAndLockShared
    | TryUnlockSharedAndLockUpgrade | TryUnlockSharedAndLockUpgradeUntil | UnlockUpgradeAndLockShared
    | UnlockUpgradeAndLock | TryUnlockUpgradeAndLock | TryUnlockUpgradeAndLockUntil | UnlockAndLockUpgrade

  /** Where a thread is: outside every operation, asleep at a gate inside `op`, or past the release of `mut_` with
      its call of `gate1_.notify_all()` still to come. */
  datatype Phase =
    | Running(role: Role)
    | AtGate1(op: Op, notified: bool)
    | AtGate2(op: Op, notified: bool)
    | Owing(role: Role)

  datatype Wake = WakeNone | WakeAllGate1 | WakeOneGate1 | WakeOneGate2

  datatype Section = Section(flags: Flags, phase: Phase, wake: Wake)

  /** The role a caller of `op` must hold. */
  function CallerRole(op: Op): Role {
    match op
    case Lock | TryLock | TryLockUntil | LockShared | TryLockShared | TryLockSharedUntil
      | LockUpgrade | TryLockUpgrade | TryLockUpgradeUntil => NoRole
    case UnlockShared | TryUnlockSharedAndLock | TryUnlockSharedAndLockUntil
      | TryUnlockSharedAndLockUpgrade | TryUnlockSharedAndLockUpgradeUntil => Reader
    case UnlockUpgrade | UnlockUpgradeAndLockShared | UnlockUpgradeAndLock
      | TryUnlockUpgradeAndLock | TryUnlockUpgradeAndLockUntil => Upgrader
    case Unlock | UnlockAndLockShared | UnlockAndLockUpgrade => Writer
  }

  /** The operations that can sleep at gate 1, and the role a thread holds while it sleeps at gate 2. */
  predicate WaitsAtGate1(op: Op) {
    op in {Lock, TryLockUntil, LockShared, TryLockSharedUntil, LockUpgrade, TryLockUpgradeUntil}
  }

  predicate IsExclusiveLocker(op: Op) { op == Lock || op == TryLockUntil }

  function Gate2Role(op: Op): Role {
    match op
    case Lock | TryLockUntil | UnlockUpgradeAndLock => Writer
    case TryUnlockSharedAndLockUntil | TryUnlockSharedAndLockUpgradeUntil => Reader
    case TryUnlockUpgradeAndLockUntil => Upgrader
    case _ => NoRole
  }

  predicate IsTimed(op: Op) {
    op in {TryLockUntil, TryLockSharedUntil, TryLockUpgradeUntil, TryUnlockSharedAndLockUntil,
           TryUnlockSharedAndLockUpgradeUntil, TryUnlockUpgradeAndLockUntil}
  }

  function RoleOf(phase: Phase): Role {
    match phase
    case Running(r) => r
    case AtGate1(_, _) => NoRole
    case AtGate2(op, _) => Gate2Role(op)
    case Owing(r) => r
  }

  predicate CanEnter(op: Op, f: Flags) {
    CallerRole(op) in {Reader, Upgrader} ==> f.readers > 0
  }

  /** One critical section of `op`, from its start to its return, its first wait, or its release of `mut_`. */
  function Enter(op: Op, f: Flags, max: nat): Section
    requires CanEnter(op, f)
  {
    match op
    case Lock | TryLockUntil =>
      if f.writer || f.upgrader then Section(f, AtGate1(op, false), WakeNone)
      else AwaitReaders(op, f.(writer := true))
    case TryLock =>
      if f == UNLOCKED then Section(WRITTEN, Running(Writer), WakeNone) else Section(f, Running(NoRole), WakeNone)
    case Unlock =>
      Section(UNLOCKED, Running(NoRole), WakeAllGate1)

    case LockShared | TryLockSharedUntil =>
      if f.writer || f.readers == max then Section(f, AtGate1(op, false), WakeNone)
      else Section(f.(readers := f.readers + 1), Running(Reader), WakeNone)
    case TryLockShared =>
      if f.writer || f.readers == max then Section(f, Running(NoRole), WakeNone)
      else Section(f.(readers := f.readers + 1), Running(Reader), WakeNone)
    case UnlockShared =>
      Section(f.(readers := f.readers - 1), Running(NoRole),
              if f.writer then (if f.readers == 1 then WakeOneGate2 else WakeNone)
              else if f.readers == max then WakeOneGate1 else WakeNone)

    case LockUpgrade | TryLockUpgradeUntil =>
      if f.writer || f.upgrader || f.readers == max then Section(f, AtGate1(op, false), WakeNone)
      else Section(Flags(false, true, f.readers + 1), Running(Upgrader), WakeNone)
    case TryLockUpgrade =>
      if f.writer || f.upgrader || f.readers == max then Section(f, Running(NoRole), WakeNone)
      else Section(Flags(false, true, f.readers + 1), Running(Upgrader), WakeNone)
    case UnlockUpgrade =>
      Section(f.(upgrader := false, readers := f.readers - 1), Owing(NoRole), WakeNone)

    case TryUnlockSharedAndLock =>
      if f == Flags(false, false, 1) then Section(WRITTEN, Running(Writer), WakeNone)
      else Section(f, Running(Reader), WakeNone)
    case TryUnlockSharedAndLockUntil =>
      if f == Flags(false, false, 1) then Section(WRITTEN, Running(Writer), WakeNone)
      else Section(f, AtGate2(op, false), WakeNone)
    case UnlockAndLockShared =>
      Section(Flags(false, false, 1), Owing(Reader), WakeNone)

    case TryUnlockSharedAndLockUpgrade =>
      if f.writer || f.upgrader then Section(f, Running(Reader), WakeNone)
      else Section(f.(upgrader := true), Running(Upgrader), WakeNone)
    case TryUnlockSharedAndLockUpgradeUntil =>
      if f.writer || f.upgrader then Section(f, AtGate2(op, false), WakeNone)
      else Section(f.(upgrader := true), Running(Upgrader), WakeNone)
    case UnlockUpgradeAndLockShared =>
      Section(f.(upgrader := false), Owing(Reader), WakeNone)

    case UnlockUpgradeAndLock =>
      AwaitReaders(op, Flags(true, false, f.readers - 1))
    case TryUnlockUpgradeAndLock =>
      if f == Flags(false, true, 1) then Section(WRITTEN, Running(Writer), WakeNone)
      else Section(f, Running(Upgrader), WakeNone)
    case TryUnlockUpgradeAndLockUntil =>
      if f.readers == 1 then Section(WRITTEN, Running(Writer), WakeNone)
      else Section(f, AtGate2(op, false), WakeNone)
    case UnlockAndLockUpgrade =>
      Section(Flags(false, true, 1), Owing(Upgrader), WakeNone)
  }

  /** The test of the second gate by a thread that has entered as the writer. */
  function AwaitReaders(op: Op, f: Flags): Section {
    Section(f, if f.readers != 0 then AtGate2(op, false) else Running(Writer), WakeNone)
  }

  /** A writer at gate 2 has given its own share up already, and tests only the count. */
  predicate CanRecheck(phase: Phase, f: Flags)
    requires phase.AtGate1? || phase.AtGate2?
  {
    (phase.AtGate2? && Gate2Role(phase.op) == Writer) || CanEnter(phase.op, f)
  }

  /** A sleeper takes `mut_` again, whether notified, timed out or woken spuriously, and tests its condition. */
  function Recheck(phase: Phase, f: Flags, max: nat): Section
    requires (phase.AtGate1? || phase.AtGate2?) && CanRecheck(phase, f)
  {
    if phase.AtGate2? && Gate2Role(phase.op) == Writer then AwaitReaders(phase.op, f)
    else Enter(phase.op, f, max)
  }

  /** A timed sleeper whose condition still fails at the deadline. It returns false; a pending writer first takes
      its flag back, and notifies nobody. */
  function GiveUp(phase: Phase, f: Flags): Section
    requires phase.AtGate1? || phase.AtGate2?
  {
    if phase.AtGate1? then Section(f, Running(NoRole), WakeNone)
    else if Gate2Role(phase.op) == Writer then Section(f.(writer := false), Running(NoRole), WakeNone)
    else Section(f, Running(Gate2Role(phase.op)), WakeNone)
  }
}
