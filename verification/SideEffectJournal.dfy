/** The effect log of a call: written in Record mode, read back by index in Replay mode, with a fixed capacity past
    which effects are counted and dropped. */
module SideEffectJournals {
  import opened GuestTypes

  const BOUND := 0x10_0000

  datatype EffectKind =
    | DeviceRead
    | DeviceWrite
    | NestedOverride
    | PlatformServiceCall
    | BiosCall
    | PadWorkAreaCall
    | Syscall
    | PendingWork

  datatype Mode = Record | Replay | Discard

  datatype SideEffect = SideEffect(kind: EffectKind, address: Word, width: Word, value: Word)

  /** The log was full; whether the call was stopped for it depends on translated code being open. */
  datatype BoundViolation = BoundViolation(mode: Mode, offending: SideEffect, effects: nat, refused: nat,
                                           stoppedCall: bool)

  datatype Reason = Performed(mode: Mode, effect: SideEffect) | ServicedPendingWork

  datatype Journal = Journal(
    mode: Mode,
    recorded: seq<SideEffect>,
    effects: seq<SideEffect>,
    unreplayable: Option<Reason>,
    divergedAt: Option<nat>,
    withheldPendingWork: nat,
    violation: Option<BoundViolation>,
    translated: nat)

  function NewJournal(mode: Mode, recorded: seq<SideEffect>): Journal {
    Journal(mode, recorded, [], None, None, 0, None, 0)
  }

  /** What one journal call leaves: the new journal, whether it raised the bound fault, and its answer. */
  datatype Response<T> = Response(journal: Journal, thrown: bool, value: T)

  predicate MatchesRecordedAt(j: Journal, index: nat, effect: SideEffect) {
    index < |j.recorded| && j.recorded[index] == effect
  }

  function RefusedAtBound(j: Journal, effect: SideEffect): Response<()> {
    var v := if j.violation.Some? then j.violation.value else BoundViolation(j.mode, effect, |j.effects|, 0, false);
    var thrown := j.mode == Replay && j.translated == 0;
    Response(j.(violation := Some(v.(refused := v.refused + 1, stoppedCall := v.stoppedCall || thrown))), thrown, ())
  }

  function Appended(j: Journal, effect: SideEffect): Response<()> {
    if |j.effects| >= BOUND then RefusedAtBound(j, effect)
    else
      var diverges := j.mode == Replay && j.divergedAt.None? && !MatchesRecordedAt(j, |j.effects|, effect);
      Response(j.(effects := j.effects + [effect], divergedAt := if diverges then Some(|j.effects|) else j.divergedAt),
               false, ())
  }

  /** The last value the log read from an address at a width, else 0. */
  function LastRead(recorded: seq<SideEffect>, address: Word, width: Word): Word {
    if |recorded| == 0 then 0
    else
      var last := recorded[|recorded| - 1];
      if last.kind == DeviceRead && last.address == address && last.width == width then last.value
      else LastRead(recorded[..|recorded| - 1], address, width)
  }

  /** The value a replayed read gets: from the log entry whose turn it is, if it is this access, else the latest one. */
  function ServedValue(j: Journal, address: Word, width: Word): Word {
    var index := |j.effects|;
    if index < |j.recorded| && j.recorded[index].kind == DeviceRead && j.recorded[index].address == address &&
       j.recorded[index].width == width then j.recorded[index].value
    else LastRead(j.recorded, address, width)
  }

  function ReplayedRead(j: Journal, address: Word, width: Word): Response<Option<Word>> {
    if j.mode == Record then Response(j, false, None)
    else
      var value := if j.mode == Discard then 0 else ServedValue(j, address, width);
      var a := Appended(j, SideEffect(DeviceRead, address, width, value));
      Response(a.journal, a.thrown, Some(value))
  }

  function AdmittedWrite(j: Journal, address: Word, width: Word, value: Word): Response<bool> {
    var a := Appended(j, SideEffect(DeviceWrite, address, width, value));
    Response(a.journal, a.thrown, j.mode == Record)
  }

  function MarkedUnreplayable(j: Journal, reason: Reason): Journal {
    if j.unreplayable.None? then j.(unreplayable := Some(reason)) else j
  }

  function AdmittedService(j: Journal, kind: EffectKind, address: Word, selector: Word): Response<bool> {
    var effect := SideEffect(kind, address, 0, selector);
    var a := Appended(j, effect);
    if a.thrown then Response(a.journal, true, false)
    else if j.mode == Discard then Response(a.journal, false, true)
    else if kind == NestedOverride then
      Response(a.journal, false, j.mode == Record || MatchesRecordedAt(j, |j.effects|, effect))
    else Response(MarkedUnreplayable(a.journal, Performed(j.mode, effect)), false, j.mode == Record)
  }

  function AdmittedSyscall(j: Journal, code: Word, pc: Word): Response<bool> {
    var effect := SideEffect(Syscall, pc, 0, code);
    var a := Appended(j, effect);
    if a.thrown then Response(a.journal, true, false)
    else Response(MarkedUnreplayable(a.journal, Performed(j.mode, effect)), false, j.mode == Record)
  }

  function AdmittedPendingWork(j: Journal): Response<bool> {
    if j.mode != Record then Response(j.(withheldPendingWork := j.withheldPendingWork + 1), false, false)
    else
      var a := Appended(j, SideEffect(PendingWork, 0, 0, 0));
      Response(MarkedUnreplayable(a.journal, ServicedPendingWork), false, true)
  }

  predicate WithholdsGuestTime(j: Journal) {
    j.mode != Record
  }

  function FirstDivergence(j: Journal): Option<nat> {
    if j.divergedAt.Some? then j.divergedAt
    else if |j.effects| != |j.recorded| then Some(if |j.effects| < |j.recorded| then |j.effects| else |j.recorded|)
    else None
  }

  // ---- what each mode answers ------------------------------------------------------------------------

  predicate IsRead(effect: SideEffect, address: Word, width: Word) {
    effect.kind == DeviceRead && effect.address == address && effect.width == width
  }

  lemma {:induction false} LastReadIsTheLatest(recorded: seq<SideEffect>, address: Word, width: Word, i: nat)
    requires i < |recorded| && IsRead(recorded[i], address, width)
    requires forall later :: i < later < |recorded| ==> !IsRead(recorded[later], address, width)
    ensures LastRead(recorded, address, width) == recorded[i].value
  {
    if i < |recorded| - 1 {
      LastReadIsTheLatest(recorded[..|recorded| - 1], address, width, i);
    }
  }

  lemma {:induction false} UnreadIsZero(recorded: seq<SideEffect>, address: Word, width: Word)
    requires forall i :: 0 <= i < |recorded| ==> !IsRead(recorded[i], address, width)
    ensures LastRead(recorded, address, width) == 0
  {
    if |recorded| > 0 {
      UnreadIsZero(recorded[..|recorded| - 1], address, width);
    }
  }

  /** This value answers a read off the live path: nothing was recorded in Discard mode; in Replay it is the entry whose
      turn it is, when that is this very access, else the latest recorded read of it, else zero. */
  ghost predicate Serves(j: Journal, address: Word, width: Word, value: Word) {
    if j.mode == Discard then value == 0
    else if |j.effects| < |j.recorded| && IsRead(j.recorded[|j.effects|], address, width) then
      value == j.recorded[|j.effects|].value
    else
      || (exists i :: 0 <= i < |j.recorded| && IsRead(j.recorded[i], address, width) && value == j.recorded[i].value &&
                      forall later :: i < later < |j.recorded| ==> !IsRead(j.recorded[later], address, width))
      || (value == 0 && forall i :: 0 <= i < |j.recorded| ==> !IsRead(j.recorded[i], address, width))
  }

  lemma {:induction false} LatestRead(recorded: seq<SideEffect>, address: Word, width: Word)
    ensures
      || (exists i :: 0 <= i < |recorded| && IsRead(recorded[i], address, width) &&
                      LastRead(recorded, address, width) == recorded[i].value &&
                      forall later :: i < later < |recorded| ==> !IsRead(recorded[later], address, width))
      || (LastRead(recorded, address, width) == 0 &&
          forall i :: 0 <= i < |recorded| ==> !IsRead(recorded[i], address, width))
  {
    if i :| 0 <= i < |recorded| && IsRead(recorded[i], address, width) {
      var latest := LatestIndex(recorded, address, width, i);
      LastReadIsTheLatest(recorded, address, width, latest);
    } else {
      UnreadIsZero(recorded, address, width);
    }
  }

  lemma {:induction false} LatestIndex(recorded: seq<SideEffect>, address: Word, width: Word, from: nat)
    returns (i: nat)
    requires from < |recorded| && IsRead(recorded[from], address, width)
    ensures from <= i < |recorded| && IsRead(recorded[i], address, width)
    ensures forall later :: i < later < |recorded| ==> !IsRead(recorded[later], address, width)
    decreases |recorded| - from
  {
    i := from;
    if next :| from < next < |recorded| && IsRead(recorded[next], address, width) {
      i := LatestIndex(recorded, address, width, next);
    }
  }

  /** A read is served off the live path and nowhere else, with the right value, and logged as served. */
  lemma {:induction false} ReadIsServedIff(j: Journal, address: Word, width: Word)
    ensures var served := ReplayedRead(j, address, width);
            && (served.value.None? <==> j.mode == Record)
            && (j.mode == Record ==> served.journal == j && !served.thrown)
            && (j.mode != Record ==>
                  && Serves(j, address, width, served.value.value)
                  && (served.thrown <==> j.mode == Replay && |j.effects| >= BOUND && j.translated == 0)
                  && served.journal.effects ==
                     if |j.effects| >= BOUND then j.effects
                     else j.effects + [SideEffect(DeviceRead, address, width, served.value.value)])
  {
    LatestRead(j.recorded, address, width);
  }

  /** A host service is performed on the live path and in Discard mode; a replay performs only the nested override the
      recording holds at this very position. Any service but a nested override makes a judged journal unreplayable. */
  lemma {:induction false} ServiceIsAdmittedIff(j: Journal, kind: EffectKind, address: Word, selector: Word)
    ensures var a := AdmittedService(j, kind, address, selector);
            && (a.thrown <==> j.mode == Replay && |j.effects| >= BOUND && j.translated == 0)
            && (a.value <==> || j.mode == Record || j.mode == Discard
                             || (kind == NestedOverride && !a.thrown && |j.effects| < |j.recorded| &&
                                 j.recorded[|j.effects|] == SideEffect(NestedOverride, address, 0, selector)))
            && (a.journal.unreplayable.Some? <==>
                j.unreplayable.Some? || (j.mode != Discard && kind != NestedOverride && !a.thrown))
  {
  }

  /** Device writes, syscalls and pending work reach the machine on the live path only, and are logged as what they
      are. */
  lemma {:induction false} OnlyTheLivePathPerforms(j: Journal, address: Word, width: Word, value: Word)
    ensures AdmittedWrite(j, address, width, value).value <==> j.mode == Record
    ensures AdmittedSyscall(j, value, address).value <==> j.mode == Record
    ensures AdmittedPendingWork(j).value <==> j.mode == Record
    ensures WithholdsGuestTime(j) <==> j.mode != Record
    ensures AdmittedPendingWork(j).journal.withheldPendingWork ==
            j.withheldPendingWork + if j.mode == Record then 0 else 1
    ensures |j.effects| < BOUND ==>
              && AdmittedWrite(j, address, width, value).journal.effects ==
                 j.effects + [SideEffect(DeviceWrite, address, width, value)]
              && AdmittedSyscall(j, value, address).journal.effects ==
                 j.effects + [SideEffect(Syscall, address, 0, value)]
              && AdmittedPendingWork(j).journal.effects ==
                 if j.mode == Record then j.effects + [SideEffect(PendingWork, 0, 0, 0)] else j.effects
  {
  }

  // ---- the position law ------------------------------------------------------------------------------

  /** The least index at which two logs differ, their lengths included. */
  ghost predicate LeastDifference<T>(a: seq<T>, b: seq<T>, i: nat) {
    && a != b && i <= |a| && i <= |b| && a[..i] == b[..i]
    && (i == |a| || i == |b| || a[i] != b[i])
  }

  /** A journal that was offered exactly `offered`, whether or not a fault was raised on the way. */
  function AppendAll(j: Journal, offered: seq<SideEffect>): Journal {
    if |offered| == 0 then j else Appended(AppendAll(j, offered[..|offered| - 1]), offered[|offered| - 1]).journal
  }

  lemma {:induction false} LogIsTheFirstEffects(mode: Mode, recorded: seq<SideEffect>, offered: seq<SideEffect>)
    ensures var j := AppendAll(NewJournal(mode, recorded), offered);
            && j.mode == mode && j.recorded == recorded && j.translated == 0
            && j.unreplayable.None? && j.withheldPendingWork == 0
            && j.effects == offered[..if |offered| < BOUND then |offered| else BOUND]
            && (j.violation.None? <==> |offered| <= BOUND)
            && (j.violation.Some? ==>
                  && j.violation.value.effects == BOUND
                  && j.violation.value.refused == |offered| - BOUND
                  && j.violation.value.offending == offered[BOUND]
                  && j.violation.value.mode == mode && (j.violation.value.stoppedCall <==> mode == Replay))
  {
    if |offered| > 0 {
      var init := offered[..|offered| - 1];
      LogIsTheFirstEffects(mode, recorded, init);
      assert offered == init + [offered[|offered| - 1]];
    }
  }

  lemma {:induction false} DivergedAtIsTheFirstMismatch(recorded: seq<SideEffect>, offered: seq<SideEffect>)
    ensures var j := AppendAll(NewJournal(Replay, recorded), offered);
            match j.divergedAt
            case None => |j.effects| <= |recorded| && j.effects == recorded[..|j.effects|]
            case Some(i) => i < |j.effects| && i <= |recorded| && j.effects[..i] == recorded[..i] &&
                            (i == |recorded| || j.effects[i] != recorded[i])
  {
    LogIsTheFirstEffects(Replay, recorded, offered);
    if |offered| > 0 {
      var init := offered[..|offered| - 1];
      DivergedAtIsTheFirstMismatch(recorded, init);
      LogIsTheFirstEffects(Replay, recorded, init);
      var before, j := AppendAll(NewJournal(Replay, recorded), init), AppendAll(NewJournal(Replay, recorded), offered);
      if |before.effects| < BOUND {
        assert j.effects == before.effects + [offered[|offered| - 1]];
        if before.divergedAt.Some? {
          assert j.effects[..j.divergedAt.value] == before.effects[..j.divergedAt.value];
        } else if j.divergedAt.None? {
          assert recorded[..|j.effects|] == recorded[..|before.effects|] + [recorded[|before.effects|]];
        } else {
          assert j.effects[..|before.effects|] == before.effects;
        }
      }
    }
  }

  /** After any sequence of effects on the shadow path the reported divergence is the least index at which its log
      differs from the recording, and there is none exactly when the two logs are equal. */
  lemma DivergenceIsLeastDifference(recorded: seq<SideEffect>, offered: seq<SideEffect>)
    ensures var j := AppendAll(NewJournal(Replay, recorded), offered);
            match FirstDivergence(j)
            case None => j.effects == recorded
            case Some(i) => LeastDifference(j.effects, recorded, i)
  {
    DivergedAtIsTheFirstMismatch(recorded, offered);
    LogIsTheFirstEffects(Replay, recorded, offered);
    var j := AppendAll(NewJournal(Replay, recorded), offered);
    if FirstDivergence(j).None? {
      assert recorded[..|j.effects|] == recorded;
    } else if j.divergedAt.None? {
      assert j.effects[..|j.effects|] == j.effects;
    }
  }

  // ---- the journal object ----------------------------------------------------------------------------

  class SideEffectJournal {
    const mode: Mode
    const recorded: seq<SideEffect>
    var effects: seq<SideEffect>
    var unreplayable: Option<Reason>
    var divergedAt: Option<nat>
    var withheldPendingWork: nat
    var violation: Option<BoundViolation>
    var translated: nat

    ghost function Model(): Journal
      reads this
    {
      Journal(mode, recorded, effects, unreplayable, divergedAt, withheldPendingWork, violation, translated)
    }

    constructor (mode: Mode, recorded: seq<SideEffect>)
      ensures Model() == NewJournal(mode, recorded)
    {
      this.mode, this.recorded := mode, recorded;
      effects, unreplayable, divergedAt, withheldPendingWork, violation, translated := [], None, None, 0, None, 0;
    }

    /** `thrown` is the raised JournalBoundExceeded. */
    method RefuseAtBound(effect: SideEffect) returns (thrown: bool)
      modifies this
      ensures Response(Model(), thrown, ()) == RefusedAtBound(old(Model()), effect)
    {
      if violation.None? {
        violation := Some(BoundViolation(mode, effect, |effects|, 0, false));
      }
      violation := Some(violation.value.(refused := violation.value.refused + 1));
      if mode != Replay || translated != 0 {
        return false;
      }
      violation := Some(violation.value.(stoppedCall := true));
      return true;
    }

    method Append(effect: SideEffect) returns (thrown: bool)
      modifies this
      ensures Response(Model(), thrown, ()) == Appended(old(Model()), effect)
    {
      if |effects| >= BOUND {
        thrown := RefuseAtBound(effect);
        return;
      }
      if mode == Replay && divergedAt.None? && !(|effects| < |recorded| && recorded[|effects|] == effect) {
        divergedAt := Some(|effects|);
      }
      effects := effects + [effect];
      return false;
    }

    method ReplayDeviceRead(address: Word, width: Word) returns (thrown: bool, served: Option<Word>)
      modifies this
      ensures Response(Model(), thrown, served) == ReplayedRead(old(Model()), address, width)
    {
      if mode == Record {
        return false, None;
      }
      if mode == Discard {
        thrown := Append(SideEffect(DeviceRead, address, width, 0));
        return thrown, Some(0);
      }
      var index := |effects|;
      var value: Word := 0;
      if index < |recorded| && recorded[index].kind == DeviceRead && recorded[index].address == address &&
         recorded[index].width == width {
        value := recorded[index].value;
      } else {
        var i := 0;
        while i < |recorded|
          invariant 0 <= i <= |recorded|
          invariant value == LastRead(recorded[..i], address, width)
        {
          assert recorded[..i + 1][..i] == recorded[..i];
          if recorded[i].kind == DeviceRead && recorded[i].address == address && recorded[i].width == width {
            value := recorded[i].value;
          }
          i := i + 1;
        }
        assert recorded[..|recorded|] == recorded;
      }
      thrown := Append(SideEffect(DeviceRead, address, width, value));
      return thrown, Some(value);
    }

    method RecordDeviceRead(address: Word, width: Word, value: Word) returns (thrown: bool)
      modifies this
      ensures Response(Model(), thrown, ()) == Appended(old(Model()), SideEffect(DeviceRead, address, width, value))
    {
      thrown := Append(SideEffect(DeviceRead, address, width, value));
    }

    method AdmitDeviceWrite(address: Word, width: Word, value: Word) returns (thrown: bool, admitted: bool)
      modifies this
      ensures Response(Model(), thrown, admitted) == AdmittedWrite(old(Model()), address, width, value)
    {
      thrown := Append(SideEffect(DeviceWrite, address, width, value));
      return thrown, mode == Record;
    }

    method MarkUnreplayable(reason: Reason)
      modifies this`unreplayable
      ensures Model() == MarkedUnreplayable(old(Model()), reason)
    {
      if unreplayable.None? {
        unreplayable := Some(reason);
      }
    }

    method AdmitHostService(kind: EffectKind, address: Word, selector: Word) returns (thrown: bool, admitted: bool)
      modifies this
      ensures Response(Model(), thrown, admitted) == AdmittedService(old(Model()), kind, address, selector)
    {
      var effect := SideEffect(kind, address, 0, selector);
      var index := |effects|;
      thrown := Append(effect);
      if thrown {
        return true, false;
      }
      if mode == Discard {
        return false, true;
      }
      if kind == NestedOverride {
        return false, mode == Record || (index < |recorded| && recorded[index] == effect);
      }
      MarkUnreplayable(Performed(mode, effect));
      return false, mode == Record;
    }

    method AdmitSyscall(code: Word, pc: Word) returns (thrown: bool, admitted: bool)
      modifies this
      ensures Response(Model(), thrown, admitted) == AdmittedSyscall(old(Model()), code, pc)
    {
      var effect := SideEffect(Syscall, pc, 0, code);
      thrown := Append(effect);
      if thrown {
        return true, false;
      }
      MarkUnreplayable(Performed(mode, effect));
      return false, mode == Record;
    }

    method AdmitPendingWork() returns (admitted: bool)
      modifies this
      ensures Response(Model(), false, admitted) == AdmittedPendingWork(old(Model()))
    {
      if mode != Record {
        withheldPendingWork := withheldPendingWork + 1;
        return false;
      }
      var thrown := Append(SideEffect(PendingWork, 0, 0, 0));
      MarkUnreplayable(ServicedPendingWork);
      return true;
    }

    method ReportFirstDivergence() returns (index: Option<nat>)
      ensures index == FirstDivergence(Model())
    {
      if divergedAt.Some? {
        return divergedAt;
      }
      if |effects| != |recorded| {
        return Some(if |effects| < |recorded| then |effects| else |recorded|);
      }
      return None;
    }
  }
}
