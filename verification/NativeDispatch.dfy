/** The native dispatcher: verdicts about guest addresses in a direct-mapped table, kept honest by one epoch counter and
    per-address forgetting, against the resolution they stand in for. */
module NativeDispatch {
  import opened GuestTypes
  import opened ImageCatalogs
  import opened Invalidations

  datatype NativeKey = NativeKey(image: ImageIdentity, address: Word)

  /** An installed title override; `body` stands for the native body, 0 for a null one. */
  datatype Override = Override(name: string, body: nat, producer: bool)

  datatype DispatchKind = ExecuteGuest | HostServiceKind | FaultKind

  datatype Resolution =
    | TitleOverride(key: NativeKey)
    | PlatformService
    | BiosTable(table: char)
    | PadWorkArea
    | NullTarget
    | UnclaimedAddress
    | GuestCode
  {
    function Kind(): DispatchKind {
      if GuestCode? then ExecuteGuest else if UnclaimedAddress? then FaultKind else HostServiceKind
    }
  }

  /** The Game's service tables, and whether the pad work area currently answers. The second depends
      on guest RAM, so it moves without the epoch. */
  datatype Environment = Environment(game: bool, platform: set<Word>, padAnswers: bool)

  const PAD_ENABLE_ENTRY: Word := 0xE884
  const PAD_DISABLE_ENTRY: Word := 0xE894

  predicate IsPadEntry(address: Word) {
    Physical(address) == PAD_ENABLE_ENTRY || Physical(address) == PAD_DISABLE_ENTRY
  }

  const SLOT_COUNT := 0x4000

  /** One cached verdict; epoch 0 is never live, so a fresh or forgotten slot is empty. */
  datatype Slot = Slot(epoch: nat, address: Word, kind: DispatchKind, live: bool)

  function SlotIndex(address: Word): (i: nat)
    ensures i < SLOT_COUNT
  {
    (address / 4) % SLOT_COUNT
  }

  datatype Dispatcher = Dispatcher(
    catalog: Catalog,
    overrides: map<NativeKey, Override>,
    suppressions: seq<NativeKey>,
    env: Environment,
    epoch: nat,
    slots: seq<Slot>)

  predicate Intercepts(d: Dispatcher, key: NativeKey) {
    key in d.overrides && key !in d.suppressions
  }

  /** The uncached answer: an override installed for the owning image, else the Game's service tables, else whether any
      image claims the address. */
  function Resolve(d: Dispatcher, address: Word): Resolution {
    var target := Physical(address);
    var owner := Owner(d.catalog.entries, target);
    if target != 0 && owner.Some? && Intercepts(d, NativeKey(owner.value, address)) then
      TitleOverride(NativeKey(owner.value, address))
    else if d.env.game && address in d.env.platform then PlatformService
    else if d.env.game && target == 0xA0 then BiosTable('A')
    else if d.env.game && target == 0xB0 then BiosTable('B')
    else if d.env.game && target == 0xC0 then BiosTable('C')
    else if d.env.game && IsPadEntry(address) && d.env.padAnswers then PadWorkArea
    else if target == 0 then NullTarget
    else if owner.None? then UnclaimedAddress
    else GuestCode
  }

  // ---- the dispatcher's operations, on values --------------------------------------------------------

  function Forgotten(d: Dispatcher, address: Word): Dispatcher
    requires |d.slots| == SLOT_COUNT
  {
    var i := SlotIndex(address);
    d.(slots := d.slots[i := d.slots[i].(epoch := 0)])
  }

  function Stored(d: Dispatcher, address: Word, kind: DispatchKind): Dispatcher
    requires |d.slots| == SLOT_COUNT
  {
    d.(slots := d.slots[SlotIndex(address) := Slot(d.epoch, address, kind, IsPadEntry(address))])
  }

  predicate Installable(d: Dispatcher, key: NativeKey, o: Override) {
    key.image.id != 0 && key.image.generation != 0 && o.body != 0 && o.name != "" && key !in d.overrides
  }

  function Installed(d: Dispatcher, key: NativeKey, o: Override): Dispatcher {
    if Installable(d, key, o) then d.(overrides := d.overrides[key := o], epoch := d.epoch + 1) else d
  }

  function Removed(d: Dispatcher, key: NativeKey): Dispatcher {
    if key in d.overrides then d.(overrides := d.overrides - {key}, epoch := d.epoch + 1) else d
  }

  function Pushed(d: Dispatcher, key: NativeKey): Dispatcher
    requires |d.slots| == SLOT_COUNT
  {
    Forgotten(d.(suppressions := d.suppressions + [key]), key.address)
  }

  function Popped(d: Dispatcher): Dispatcher
    requires |d.slots| == SLOT_COUNT && |d.suppressions| > 0
  {
    var last := |d.suppressions| - 1;
    Forgotten(d, d.suppressions[last].address).(suppressions := d.suppressions[..last])
  }

  /** A catalog change advances the epoch through `changed`; a refused one moves neither. */
  function ChangeCatalog(d: Dispatcher, op: CatalogOp): Dispatcher {
    var c := Apply(d.catalog, op);
    d.(catalog := c, epoch := if c.revision != d.catalog.revision then d.epoch + 1 else d.epoch)
  }

  /** One lookup: the verdict it answers with and the table it leaves behind. */
  datatype Lookup = Lookup(kind: DispatchKind, after: Dispatcher)

  function Classified(d: Dispatcher, address: Word): Lookup
    requires |d.slots| == SLOT_COUNT
  {
    var slot := d.slots[SlotIndex(address)];
    if slot.epoch == d.epoch && slot.address == address && !slot.live then Lookup(slot.kind, d)
    else
      var kind := Resolve(d, address).Kind();
      Lookup(kind, Stored(d, address, kind))
  }

  datatype DispatchOp =
    | InstallOp(key: NativeKey, o: Override)
    | RemoveOp(key: NativeKey)
    | PushOp(key: NativeKey)
    | PopOp
    | CatalogChange(op: CatalogOp)
    | ServicesChange(env: Environment)
    | PadMemoryChange(padAnswers: bool)
    | LookupOp(address: Word)

  function Step(d: Dispatcher, op: DispatchOp): Dispatcher
    requires |d.slots| == SLOT_COUNT
  {
    match op
    case InstallOp(key, o) => Installed(d, key, o)
    case RemoveOp(key) => Removed(d, key)
    case PushOp(key) => Pushed(d, key)
    case PopOp => if |d.suppressions| > 0 then Popped(d) else d
    case CatalogChange(op) => ChangeCatalog(d, op)
    case ServicesChange(env) => d.(env := env, epoch := d.epoch + 1)
    case PadMemoryChange(padAnswers) => d.(env := d.env.(padAnswers := padAnswers))
    case LookupOp(address) => Classified(d, address).after
  }

  // ---- what each answer means ------------------------------------------------------------------------

  /** A live override of the image that owns this address; the null target has none. */
  ghost predicate Overrides(d: Dispatcher, key: NativeKey, address: Word) {
    && key.address == address && Physical(address) != 0
    && Owner(d.catalog.entries, Physical(address)) == Some(key.image)
    && key in d.overrides && key !in d.suppressions
  }

  ghost predicate Overridden(d: Dispatcher, address: Word) {
    exists key :: Overrides(d, key, address)
  }

  predicate IsTable(table: char, address: Word) {
    || (table == 'A' && Physical(address) == 0xA0)
    || (table == 'B' && Physical(address) == 0xB0)
    || (table == 'C' && Physical(address) == 0xC0)
  }

  predicate PadAnswers(env: Environment, address: Word) {
    env.padAnswers && (Physical(address) == 0xE884 || Physical(address) == 0xE894)
  }

  /** The Game answers here itself: a platform service, a BIOS table or the pad work area. */
  ghost predicate Served(env: Environment, address: Word) {
    env.game && (address in env.platform || (exists table :: IsTable(table, address)) || PadAnswers(env, address))
  }

  /** When each answer is the right one. An override is preferred to everything, the Game's services to the image. */
  ghost predicate Answers(d: Dispatcher, address: Word, r: Resolution) {
    match r
    case TitleOverride(key) => Overrides(d, key, address)
    case PlatformService => !Overridden(d, address) && d.env.game && address in d.env.platform
    case BiosTable(table) =>
      !Overridden(d, address) && d.env.game && address !in d.env.platform && IsTable(table, address)
    case PadWorkArea =>
      !Overridden(d, address) && d.env.game && address !in d.env.platform && PadAnswers(d.env, address)
    case NullTarget => !Overridden(d, address) && !Served(d.env, address) && Physical(address) == 0
    case UnclaimedAddress =>
      && !Overridden(d, address) && !Served(d.env, address) && Physical(address) != 0
      && !exists i :: 0 <= i < |d.catalog.entries| && d.catalog.entries[i].Covers(Physical(address))
    case GuestCode =>
      && !Overridden(d, address) && !Served(d.env, address) && Physical(address) != 0
      && exists i :: 0 <= i < |d.catalog.entries| && d.catalog.entries[i].Covers(Physical(address))
  }

  /** The resolution is the one right answer. */
  lemma {:induction false} ResolutionIff(d: Dispatcher, address: Word, r: Resolution)
    ensures Resolve(d, address) == r <==> Answers(d, address, r)
  {
    OwnerIsNoneWhenUncovered(d.catalog.entries, Physical(address));
    var owner := Owner(d.catalog.entries, Physical(address));
    if owner.Some? && Overrides(d, NativeKey(owner.value, address), address) {
      assert Overridden(d, address);
    }
    assert IsTable('A', address) <==> Physical(address) == 0xA0;
    assert IsTable('B', address) <==> Physical(address) == 0xB0;
    assert IsTable('C', address) <==> Physical(address) == 0xC0;
  }

  /** An override of the owning image answers as soon as it is installed, whatever else the Game serves there. */
  lemma {:induction false} InstalledOverrideAnswers(d: Dispatcher, key: NativeKey, o: Override)
    requires Coherent(d) && Installable(d, key, o) && key !in d.suppressions
    requires Physical(key.address) != 0 && Owner(d.catalog.entries, Physical(key.address)) == Some(key.image)
    ensures var after := Installed(d, key, o);
            && Resolve(after, key.address) == TitleOverride(key)
            && Classified(after, key.address).kind == HostServiceKind
  {
    var after := Installed(d, key, o);
    assert Overrides(after, key, key.address);
    ResolutionIff(after, key.address, TitleOverride(key));
    AdvanceKeepsCoherent(d, after);
    assert SlotCoherent(after, after.slots[SlotIndex(key.address)], SlotIndex(key.address));
  }

  /** Installing a key moves no other address, and removing it again leaves every answer as it was. */
  lemma {:induction false} RemoveUndoesInstall(d: Dispatcher, key: NativeKey, o: Override, address: Word)
    requires key !in d.overrides
    ensures address != key.address ==> Resolve(Installed(d, key, o), address) == Resolve(d, address)
    ensures Resolve(Removed(Installed(d, key, o), key), address) == Resolve(d, address)
  {
  }

  /** A suppressed override is to every address as one that was never installed. */
  lemma {:induction false} SuppressedIsUninstalled(d: Dispatcher, key: NativeKey, address: Word)
    requires |d.slots| == SLOT_COUNT
    ensures Resolve(Pushed(d, key), address) == Resolve(Removed(d, key), address)
  {
  }

  // ---- the cache refines the uncached answer ---------------------------------------------------------

  /** Every slot stamped with the live epoch and not re-derived holds the answer the inputs give now. */
  ghost predicate Coherent(d: Dispatcher) {
    && |d.slots| == SLOT_COUNT && 1 <= d.epoch
    && forall i :: 0 <= i < SLOT_COUNT ==> SlotCoherent(d, d.slots[i], i)
  }

  ghost predicate SlotCoherent(d: Dispatcher, slot: Slot, i: nat) {
    && slot.epoch <= d.epoch
    && (slot.epoch == d.epoch ==> i == SlotIndex(slot.address) && slot.live == IsPadEntry(slot.address))
    && (slot.epoch == d.epoch && !slot.live ==> slot.kind == Resolve(d, slot.address).Kind())
  }

  /** Moving the epoch makes every stored verdict stale at once. */
  lemma AdvanceKeepsCoherent(d: Dispatcher, after: Dispatcher)
    requires Coherent(d) && after.slots == d.slots && after.epoch == d.epoch + 1
    ensures Coherent(after)
  {
    forall i | 0 <= i < SLOT_COUNT ensures SlotCoherent(after, after.slots[i], i) {
      assert SlotCoherent(d, d.slots[i], i);
    }
  }

  /** Dispatchers that differ in the suppression of one key answer alike at every address but the key's. */
  lemma SuppressionMovesOneAddress(d: Dispatcher, changed: Dispatcher, key: NativeKey, address: Word)
    requires changed == d.(suppressions := changed.suppressions)
    requires forall k: NativeKey :: k != key ==> (k in d.suppressions <==> k in changed.suppressions)
    requires address != key.address
    ensures Resolve(changed, address) == Resolve(d, address)
  {
  }

  lemma SuppressKeepsCoherent(d: Dispatcher, after: Dispatcher, key: NativeKey)
    requires Coherent(d)
    requires after == Forgotten(d, key.address).(suppressions := after.suppressions)
    requires forall k: NativeKey :: k != key ==> (k in d.suppressions <==> k in after.suppressions)
    ensures Coherent(after)
  {
    var changed := d.(suppressions := after.suppressions);
    forall i | 0 <= i < SLOT_COUNT ensures SlotCoherent(after, after.slots[i], i) {
      assert SlotCoherent(d, d.slots[i], i);
      if i != SlotIndex(key.address) && d.slots[i].epoch == d.epoch {
        SuppressionMovesOneAddress(d, changed, key, d.slots[i].address);
        assert Resolve(after, d.slots[i].address) == Resolve(changed, d.slots[i].address);
      }
    }
  }

  lemma PadMemoryKeepsCoherent(d: Dispatcher, padAnswers: bool)
    requires Coherent(d)
    ensures Coherent(d.(env := d.env.(padAnswers := padAnswers)))
  {
    var after := d.(env := d.env.(padAnswers := padAnswers));
    forall i | 0 <= i < SLOT_COUNT ensures SlotCoherent(after, after.slots[i], i) {
      assert SlotCoherent(d, d.slots[i], i);
    }
  }

  lemma StoreKeepsCoherent(d: Dispatcher, address: Word)
    requires Coherent(d)
    ensures Coherent(Stored(d, address, Resolve(d, address).Kind()))
  {
    var after := Stored(d, address, Resolve(d, address).Kind());
    forall i | 0 <= i < SLOT_COUNT ensures SlotCoherent(after, after.slots[i], i) {
      assert SlotCoherent(d, d.slots[i], i);
      assert Resolve(after, after.slots[i].address) == Resolve(d, after.slots[i].address);
    }
  }

  lemma RefusedCatalogChangeIsIdentity(c: Catalog, op: CatalogOp)
    ensures Apply(c, op).revision == c.revision ==> Apply(c, op) == c
    ensures Apply(c, op).revision == c.revision || Apply(c, op).revision == c.revision + 1
  {
    if op.AdoptOp? {
      var scan := ScanForAdoption(c.entries, op.residencies);
      AppendKeepsRevision(c.(entries := scan.entries), op.residencies[scan.kept..]);
    }
  }

  lemma {:induction false} AppendKeepsRevision(c: Catalog, residencies: seq<ImageDescription>)
    ensures Append(c, residencies).revision == c.revision
  {
    if |residencies| > 0 {
      AppendKeepsRevision(c, residencies[..|residencies| - 1]);
    }
  }

  lemma StepKeepsCoherent(d: Dispatcher, op: DispatchOp)
    requires Coherent(d)
    ensures Coherent(Step(d, op))
  {
    match op
    case InstallOp(key, o) => if Installable(d, key, o) { AdvanceKeepsCoherent(d, Installed(d, key, o)); }
    case RemoveOp(key) => if key in d.overrides { AdvanceKeepsCoherent(d, Removed(d, key)); }
    case PushOp(key) => SuppressKeepsCoherent(d, Pushed(d, key), key);
    case PopOp =>
      if |d.suppressions| > 0 {
        var last := |d.suppressions| - 1;
        assert d.suppressions == d.suppressions[..last] + [d.suppressions[last]];
        SuppressKeepsCoherent(d, Popped(d), d.suppressions[last]);
      }
    case CatalogChange(op) =>
      RefusedCatalogChangeIsIdentity(d.catalog, op);
      if Apply(d.catalog, op).revision != d.catalog.revision {
        AdvanceKeepsCoherent(d, ChangeCatalog(d, op));
      }
    case ServicesChange(env) => AdvanceKeepsCoherent(d, d.(env := env, epoch := d.epoch + 1));
    case PadMemoryChange(padAnswers) => PadMemoryKeepsCoherent(d, padAnswers);
    case LookupOp(address) => StoreKeepsCoherent(d, address);
  }

  function Run(d: Dispatcher, ops: seq<DispatchOp>): (r: Dispatcher)
    requires |d.slots| == SLOT_COUNT
    ensures |r.slots| == SLOT_COUNT
  {
    if |ops| == 0 then d else Step(Run(d, ops[..|ops| - 1]), ops[|ops| - 1])
  }

  function Initial(): Dispatcher {
    Dispatcher(EMPTY_CATALOG, map[], [], Environment(false, {}, false), 1,
               seq(SLOT_COUNT, _ => Slot(0, 0, ExecuteGuest, false)))
  }

  lemma {:induction false} EveryReachableCacheIsCoherent(ops: seq<DispatchOp>)
    ensures Coherent(Run(Initial(), ops))
  {
    if |ops| == 0 {
      forall i | 0 <= i < SLOT_COUNT ensures SlotCoherent(Initial(), Initial().slots[i], i) {
      }
    } else {
      EveryReachableCacheIsCoherent(ops[..|ops| - 1]);
      StepKeepsCoherent(Run(Initial(), ops[..|ops| - 1]), ops[|ops| - 1]);
    }
  }

  /** Only complete registrations are ever installed. */
  lemma {:induction false} EveryInstalledOverrideIsComplete(ops: seq<DispatchOp>, key: NativeKey)
    requires key in Run(Initial(), ops).overrides
    ensures var o := Run(Initial(), ops).overrides[key];
            key.image.id != 0 && key.image.generation != 0 && o.body != 0 && o.name != ""
  {
    if |ops| > 0 {
      var before := Run(Initial(), ops[..|ops| - 1]);
      if key in before.overrides {
        EveryInstalledOverrideIsComplete(ops[..|ops| - 1], key);
      }
    }
  }

  /** In every state any interleaving of operations reaches, the cached lookup gives the kind the uncached
      resolution would give now, and looking it up moves no other answer. */
  lemma CachedVerdictIsTheUncachedOne(ops: seq<DispatchOp>, address: Word)
    ensures var d := Run(Initial(), ops);
            && Classified(d, address).kind == Resolve(d, address).Kind()
            && forall other: Word :: Resolve(Classified(d, address).after, other) == Resolve(d, other)
  {
    EveryReachableCacheIsCoherent(ops);
    var d := Run(Initial(), ops);
    assert SlotCoherent(d, d.slots[SlotIndex(address)], SlotIndex(address));
  }

  /** What a lookup says in every reachable state: the host answers at an address some live override owns, at one the
      Game serves and at the null target; elsewhere guest code runs if an active image covers it, and nothing can. */
  lemma LookupIff(ops: seq<DispatchOp>, address: Word)
    ensures var d := Run(Initial(), ops);
            var kind := Classified(d, address).kind;
            var hosted := Overridden(d, address) || Served(d.env, address) || Physical(address) == 0;
            var claimed := exists i :: 0 <= i < |d.catalog.entries| && d.catalog.entries[i].Covers(Physical(address));
            && (kind == HostServiceKind <==> hosted)
            && (kind == ExecuteGuest <==> !hosted && claimed)
            && (kind == FaultKind <==> !hosted && !claimed)
  {
    CachedVerdictIsTheUncachedOne(ops, address);
    var d := Run(Initial(), ops);
    ResolutionIff(d, address, Resolve(d, address));
  }

  /** While a key is suppressed, on a stack of any depth and whatever the cache held before, no lookup of its
      address can be answered by its override. */
  lemma SuppressedOverrideNeverAnswers(ops: seq<DispatchOp>, key: NativeKey)
    requires key in Run(Initial(), ops).suppressions
    requires Classified(Run(Initial(), ops), key.address).kind == HostServiceKind
    ensures var resolved := Resolve(Run(Initial(), ops), key.address);
            !resolved.TitleOverride? || resolved.key != key
    ensures Owner(Run(Initial(), ops).catalog.entries, Physical(key.address)) == Some(key.image) ==>
              Run(Initial(), ops).env.game || Physical(key.address) == 0
  {
    CachedVerdictIsTheUncachedOne(ops, key.address);
  }

  /** A suppression scope that ran any lookups inside it leaves every answer as it found it. */
  lemma SuppressionScopeRestores(d: Dispatcher, key: NativeKey, lookups: seq<Word>, address: Word)
    requires |d.slots| == SLOT_COUNT
    ensures var inside := RunLookups(Pushed(d, key), lookups);
            |inside.suppressions| > 0 && Resolve(Popped(inside), address) == Resolve(d, address)
  {
    LookupsMoveOnlySlots(Pushed(d, key), lookups);
    assert (d.suppressions + [key])[..|d.suppressions|] == d.suppressions;
  }

  function RunLookups(d: Dispatcher, lookups: seq<Word>): (r: Dispatcher)
    requires |d.slots| == SLOT_COUNT
    ensures |r.slots| == SLOT_COUNT
    decreases |lookups|
  {
    if |lookups| == 0 then d else RunLookups(Classified(d, lookups[0]).after, lookups[1..])
  }

  lemma {:induction false} LookupsMoveOnlySlots(d: Dispatcher, lookups: seq<Word>)
    requires |d.slots| == SLOT_COUNT
    ensures RunLookups(d, lookups) == d.(slots := RunLookups(d, lookups).slots)
    decreases |lookups|
  {
    if |lookups| > 0 {
      LookupsMoveOnlySlots(Classified(d, lookups[0]).after, lookups[1..]);
    }
  }

  // ---- the dispatcher object -------------------------------------------------------------------------

  class VerdictCache {
    const slots: array<Slot>

    constructor ()
      ensures fresh(slots) && slots[..] == Initial().slots
    {
      slots := new Slot[SLOT_COUNT](_ => Slot(0, 0, ExecuteGuest, false));
    }

    method Find(address: Word, epoch: nat) returns (verdict: Option<Slot>)
      requires slots.Length == SLOT_COUNT
      ensures var slot := slots[SlotIndex(address)];
              verdict == if slot.epoch == epoch && slot.address == address then Some(slot) else None
    {
      var slot := slots[SlotIndex(address)];
      if slot.epoch != epoch || slot.address != address {
        return None;
      }
      return Some(slot);
    }

    method Store(address: Word, epoch: nat, kind: DispatchKind, live: bool)
      requires slots.Length == SLOT_COUNT
      modifies slots
      ensures slots[..] == old(slots[..])[SlotIndex(address) := Slot(epoch, address, kind, live)]
    {
      slots[SlotIndex(address)] := Slot(epoch, address, kind, live);
    }

    method Forget(address: Word)
      requires slots.Length == SLOT_COUNT
      modifies slots
      ensures var i := SlotIndex(address);
              slots[..] == old(slots[..])[i := old(slots[i]).(epoch := 0)]
    {
      var i := SlotIndex(address);
      slots[i] := slots[i].(epoch := 0);
    }
  }

  /** The installed producer keys of one address. */
  ghost function ProducersAt(overrides: map<NativeKey, Override>, address: Word): set<NativeKey> {
    set key | key in overrides && key.address == address && overrides[key].producer
  }

  /** The count of installed producers at one address, absent when there is none. */
  ghost predicate CountedAt(overrides: map<NativeKey, Override>, counts: map<Word, nat>, address: Word) {
    if address in counts then counts[address] == |ProducersAt(overrides, address)| && counts[address] > 0
    else ProducersAt(overrides, address) == {}
  }

  ghost predicate ProducersCounted(overrides: map<NativeKey, Override>, counts: map<Word, nat>) {
    forall address: Word :: CountedAt(overrides, counts, address)
  }

  function CountsInstalled(counts: map<Word, nat>, key: NativeKey, producer: bool): map<Word, nat> {
    if !producer then counts
    else counts[key.address := (if key.address in counts then counts[key.address] else 0) + 1]
  }

  function CountsRemoved(counts: map<Word, nat>, key: NativeKey, producer: bool): map<Word, nat> {
    if !producer || key.address !in counts then counts
    else if counts[key.address] <= 1 then counts - {key.address}
    else counts[key.address := counts[key.address] - 1]
  }

  lemma InstallCountsAt(overrides: map<NativeKey, Override>, counts: map<Word, nat>, key: NativeKey, o: Override,
                        address: Word)
    requires CountedAt(overrides, counts, address) && key !in overrides
    ensures CountedAt(overrides[key := o], CountsInstalled(counts, key, o.producer), address)
  {
    var before := ProducersAt(overrides, address);
    if o.producer && address == key.address {
      assert ProducersAt(overrides[key := o], address) == before + {key};
    } else {
      assert ProducersAt(overrides[key := o], address) == before;
    }
  }

  lemma InstallKeepsCounted(overrides: map<NativeKey, Override>, counts: map<Word, nat>, key: NativeKey, o: Override)
    requires ProducersCounted(overrides, counts) && key !in overrides
    ensures ProducersCounted(overrides[key := o], CountsInstalled(counts, key, o.producer))
  {
    var installed, after := overrides[key := o], CountsInstalled(counts, key, o.producer);
    forall address: Word ensures CountedAt(installed, after, address) {
      assert CountedAt(overrides, counts, address);
      InstallCountsAt(overrides, counts, key, o, address);
    }
  }

  lemma RemoveCountsAt(overrides: map<NativeKey, Override>, counts: map<Word, nat>, key: NativeKey, address: Word)
    requires CountedAt(overrides, counts, address) && key in overrides
    ensures CountedAt(overrides - {key}, CountsRemoved(counts, key, overrides[key].producer), address)
    ensures overrides[key].producer && address == key.address ==> address in counts
  {
    var before := ProducersAt(overrides, address);
    if overrides[key].producer && address == key.address {
      assert key in before;
      assert ProducersAt(overrides - {key}, address) == before - {key};
    } else {
      assert ProducersAt(overrides - {key}, address) == before;
    }
  }

  lemma RemoveKeepsCounted(overrides: map<NativeKey, Override>, counts: map<Word, nat>, key: NativeKey)
    requires ProducersCounted(overrides, counts) && key in overrides
    ensures overrides[key].producer ==> key.address in counts && counts[key.address] > 0
    ensures ProducersCounted(overrides - {key}, CountsRemoved(counts, key, overrides[key].producer))
  {
    assert CountedAt(overrides, counts, key.address);
    RemoveCountsAt(overrides, counts, key, key.address);
    var removed, after := overrides - {key}, CountsRemoved(counts, key, overrides[key].producer);
    forall address: Word ensures CountedAt(removed, after, address) {
      assert CountedAt(overrides, counts, address);
      RemoveCountsAt(overrides, counts, key, address);
    }
  }

  /** The physical word at a key's address, to be translated anew when an override comes or goes. */
  function WordOf(key: NativeKey): (word: Range)
    ensures forall p :: word.Contains(p) <==> 0 <= p - Physical(key.address) < 4
  {
    Range(Physical(key.address), Physical(key.address) + 4)
  }

  class NativeDispatcher {
    const catalog: ImageCatalog
    const verdicts: VerdictCache
    const translations: Translations
    var overrides: map<NativeKey, Override>
    var suppressions: seq<NativeKey>
    var env: Environment
    var producerCounts: map<Word, nat>
    var producerRevision: nat

    ghost function Model(): Dispatcher
      reads this, catalog, catalog.epoch, verdicts.slots
    {
      Dispatcher(catalog.Model(), overrides, suppressions, env, catalog.epoch.value, verdicts.slots[..])
    }

    ghost predicate Valid()
      reads this, catalog, catalog.epoch, verdicts.slots
    {
      Coherent(Model()) && ProducersCounted(overrides, producerCounts)
    }

    constructor (catalog: ImageCatalog, verdicts: VerdictCache, translations: Translations)
      requires verdicts.slots[..] == Initial().slots && catalog.epoch.value >= 1
      ensures this.catalog == catalog && this.verdicts == verdicts && this.translations == translations
      ensures Valid() && overrides == map[] && suppressions == [] && env == Environment(false, {}, false)
    {
      this.catalog, this.verdicts, this.translations := catalog, verdicts, translations;
      overrides, suppressions, env := map[], [], Environment(false, {}, false);
      producerCounts, producerRevision := map[], 0;
      new;
      forall i | 0 <= i < SLOT_COUNT ensures SlotCoherent(Model(), Model().slots[i], i) {
        assert Initial().slots[i].epoch == 0;
      }
    }

    method Install(key: NativeKey, o: Override) returns (done: bool)
      requires Valid()
      modifies this`overrides, this`producerCounts, this`producerRevision, catalog.epoch, translations`invalidated
      ensures Valid()
      ensures done <==> key.image.id != 0 && key.image.generation != 0 && o.body != 0 && o.name != "" &&
                        key !in old(overrides)
      ensures Model() == Step(old(Model()), InstallOp(key, o))
      ensures translations.invalidated == old(translations.invalidated) + if done then [WordOf(key)] else []
    {
      ghost var before := Model();
      if key.image.id == 0 || key.image.generation == 0 || o.body == 0 || o.name == "" {
        return false;
      }
      if key in overrides {
        return false;
      }
      InstallKeepsCounted(overrides, producerCounts, key, o);
      overrides := overrides[key := o];
      catalog.epoch.Advance();
      if o.producer {
        var count := if key.address in producerCounts then producerCounts[key.address] else 0;
        producerCounts := producerCounts[key.address := count + 1];
        producerRevision := producerRevision + 1;
      }
      translations.Invalidate(WordOf(key));
      AdvanceKeepsCoherent(before, Model());
      return true;
    }

    method Remove(key: NativeKey) returns (done: bool)
      requires Valid()
      modifies this`overrides, this`producerCounts, this`producerRevision, catalog.epoch, translations`invalidated
      ensures Valid()
      ensures done <==> key in old(overrides)
      ensures Model() == Step(old(Model()), RemoveOp(key))
      ensures translations.invalidated == old(translations.invalidated) + if done then [WordOf(key)] else []
    {
      ghost var before := Model();
      if key !in overrides {
        return false;
      }
      RemoveKeepsCounted(overrides, producerCounts, key);
      if overrides[key].producer {
        if producerCounts[key.address] == 1 {
          producerCounts := producerCounts - {key.address};
        } else {
          producerCounts := producerCounts[key.address := producerCounts[key.address] - 1];
        }
        producerRevision := producerRevision + 1;
      }
      overrides := overrides - {key};
      catalog.epoch.Advance();
      translations.Invalidate(WordOf(key));
      AdvanceKeepsCoherent(before, Model());
      return true;
    }

    /** The Game or its hardware-service table changed; the owner advances the epoch where it mutates. */
    method ServicesChanged(env: Environment)
      requires Valid()
      modifies this`env, catalog.epoch
      ensures Valid() && Model() == Step(old(Model()), ServicesChange(env))
    {
      ghost var before := Model();
      this.env := env;
      catalog.epoch.Advance();
      AdvanceKeepsCoherent(before, Model());
    }

    method PushSuppression(key: NativeKey)
      requires Valid()
      modifies this`suppressions, verdicts.slots
      ensures Valid() && Model() == Step(old(Model()), PushOp(key))
    {
      ghost var before := Model();
      suppressions := suppressions + [key];
      verdicts.Forget(key.address);
      StepKeepsCoherent(before, PushOp(key));
    }

    method PopSuppression()
      requires Valid() && |suppressions| > 0
      modifies this`suppressions, verdicts.slots
      ensures Valid() && Model() == Step(old(Model()), PopOp)
    {
      ghost var before := Model();
      verdicts.Forget(suppressions[|suppressions| - 1].address);
      suppressions := suppressions[..|suppressions| - 1];
      StepKeepsCoherent(before, PopOp);
    }

    method ResolveHostDispatch(address: Word) returns (resolved: Resolution)
      ensures resolved == Resolve(Model(), address) && Answers(Model(), address, resolved)
    {
      ResolutionIff(Model(), address, Resolve(Model(), address));
      var target := Physical(address);
      var isRam := target != 0;
      if isRam {
        var identity := catalog.Resolve(address);
        if identity.Some? {
          var key := NativeKey(identity.value, address);
          if key in overrides && key !in suppressions {
            return TitleOverride(key);
          }
        }
      }
      if env.game {
        if address in env.platform {
          return PlatformService;
        }
        if target == 0xA0 || target == 0xB0 || target == 0xC0 {
          return BiosTable(if target == 0xA0 then 'A' else if target == 0xB0 then 'B' else 'C');
        }
        if IsPadEntry(address) && env.padAnswers {
          return PadWorkArea;
        }
      }
      if !isRam {
        return NullTarget;
      }
      var owner := catalog.Resolve(address);
      return if owner.None? then UnclaimedAddress else GuestCode;
    }

    /** What `address` is now, from the table while its verdict is live. */
    method Classify(address: Word) returns (kind: DispatchKind)
      requires Valid()
      modifies verdicts.slots
      ensures Valid()
      ensures kind == Resolve(old(Model()), address).Kind()
      ensures Model() == Step(old(Model()), LookupOp(address))
    {
      ghost var before := Model();
      assert SlotCoherent(before, before.slots[SlotIndex(address)], SlotIndex(address));
      var verdict := verdicts.Find(address, catalog.epoch.value);
      if verdict.Some? && !verdict.value.live {
        return verdict.value.kind;
      }
      var resolved := ResolveHostDispatch(address);
      kind := resolved.Kind();
      verdicts.Store(address, catalog.epoch.value, kind, IsPadEntry(address));
      StoreKeepsCoherent(before, address);
    }

    method IsProducer(address: Word) returns (yes: bool)
      requires Valid()
      ensures yes <==> exists key :: key in overrides && key.address == address && overrides[key].producer
    {
      yes := address in producerCounts;
      assert CountedAt(overrides, producerCounts, address);
      if key :| key in overrides && key.address == address && overrides[key].producer {
        assert key in ProducersAt(overrides, address);
      }
    }
  }
}
