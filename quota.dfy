/** The data model of the storage-quota plugin: backends and their
    registry, quota roots, the per-user quota, and the transaction that
    accounts for one mailbox operation, with the contracts their
    declarations document. */
module Quota {
  import opened Wrappers

  const UINT64_MAX: int := 0xffff_ffff_ffff_ffff
  const INT64_MIN: int := -0x8000_0000_0000_0000
  const INT64_MAX: int := 0x7fff_ffff_ffff_ffff

  predicate IsU64(x: int) { 0 <= x <= UINT64_MAX }
  predicate IsI64(x: int) { INT64_MIN <= x <= INT64_MAX }

  // ---------------------------------------------------------------------
  // Backends and the registry
  // ---------------------------------------------------------------------

  /** struct quota_backend, without its event and function table. */
  datatype Backend = Backend(name: string, useVsize: bool)

  /** Two backends are the same backend when their names are equal. */
  predicate SameBackend(a: Backend, b: Backend)
  {
    a.name == b.name
  }

  /** The first backend in the list with that name. */
  function FindIn(backends: seq<Backend>, name: string): (r: Option<Backend>)
    ensures r.Some? <==> exists i :: 0 <= i < |backends| && backends[i].name == name
    ensures r.Some? ==> r.value in backends && r.value.name == name
  {
    if backends == [] then None
    else if backends[0].name == name then Some(backends[0])
    else FindIn(backends[1..], name)
  }

  /** The list without the backends of that name. */
  function RemoveNamed(backends: seq<Backend>, name: string): (r: seq<Backend>)
    ensures forall b :: b in r ==> b in backends && b.name != name
  {
    if backends == [] then []
    else if backends[0].name == name then RemoveNamed(backends[1..], name)
    else [backends[0]] + RemoveNamed(backends[1..], name)
  }

  /** After removing a name, that name is not found and every other name
      finds what it found before. */
  lemma {:induction false} FindAfterRemove(backends: seq<Backend>, name: string, other: string)
    ensures FindIn(RemoveNamed(backends, name), other) ==
              if other == name then None else FindIn(backends, other)
  {
    if backends != [] {
      FindAfterRemove(backends[1..], name, other);
    }
  }

  /** Names are unique in a list of backends. */
  ghost predicate UniqueNames(backends: seq<Backend>)
  {
    forall i, j :: 0 <= i < j < |backends| ==> backends[i].name != backends[j].name
  }

  /** The process-wide table of registered backends. */
  class BackendRegistry {
    var backends: seq<Backend>

    ghost predicate Valid()
      reads this
    {
      UniqueNames(backends)
    }

    constructor ()
      ensures Valid() && backends == []
    {
      backends := [];
    }

    /** quota_backend_find: the registered backend with that name, if any. */
    function Find(name: string): (r: Option<Backend>)
      reads this
      ensures r.Some? <==> exists i :: 0 <= i < |backends| && backends[i].name == name
      ensures r.Some? ==> r.value in backends && r.value.name == name
    {
      FindIn(backends, name)
    }

    /** quota_backend_register: adds the backend unless one of the same name
      is registered already; afterwards its name finds a backend equal to it. */
    method Register(b: Backend) returns (ok: bool)
      requires Valid()
      modifies this
      ensures Valid()
      ensures ok <==> old(Find(b.name)).None?
      ensures backends == if ok then old(backends) + [b] else old(backends)
      ensures Find(b.name).Some? && SameBackend(Find(b.name).value, b)
    {
      if Find(b.name).Some? {
        return false;
      }
      backends := backends + [b];
      ok := true;
      assert backends[|backends| - 1] == b;
    }

    /** quota_backend_unregister: afterwards the backend's name finds
      nothing, and every other name finds what it found before. */
    method Unregister(b: Backend)
      requires Valid()
      modifies this
      ensures Valid()
      ensures backends == RemoveNamed(old(backends), b.name)
      ensures Find(b.name).None?
      ensures forall n :: n != b.name ==> Find(n) == old(Find(n))
    {
      var before := backends;
      backends := RemoveNamed(backends, b.name);
      forall n
        ensures FindIn(backends, n) == if n == b.name then None else FindIn(before, n)
      {
        FindAfterRemove(before, b.name, n);
      }
      RemoveKeepsUnique(before, b.name);
    }
  }

  lemma {:induction false} RemoveKeepsUnique(backends: seq<Backend>, name: string)
    requires UniqueNames(backends)
    ensures UniqueNames(RemoveNamed(backends, name))
  {
    if backends != [] {
      var tail := backends[1..];
      assert UniqueNames(tail) by {
        forall i, j | 0 <= i < j < |tail| ensures tail[i].name != tail[j].name {
          assert tail[i] == backends[i + 1] && tail[j] == backends[j + 1];
        }
      }
      RemoveKeepsUnique(tail, name);
      if backends[0].name != name {
        var rest := RemoveNamed(tail, name);
        forall b | b in rest ensures b.name != backends[0].name {
          var k :| 0 <= k < |tail| && tail[k] == b;
          assert backends[k + 1] == b;
        }
        var r := [backends[0]] + rest;
        forall i, j | 0 <= i < j < |r| ensures r[i].name != r[j].name {
          if i == 0 {
            assert r[j] == rest[j - 1] && r[j] in rest;
          } else {
            assert r[i] == rest[i - 1] && r[j] == rest[j - 1];
          }
        }
      }
    }
  }

  // ---------------------------------------------------------------------
  // Quota roots
  // ---------------------------------------------------------------------

  /** A mail namespace, known here by its prefix only. */
  datatype Namespace = Namespace(prefix: string)

  /** quota_get_result as far as a backend's get_resource may answer:
      a value with LIMITED, UNLIMITED, or an error. */
  datatype GetResult = Limited(value: nat) | Unlimited | GetFailed(reason: string)

  /** What a backend does when quota_count asks it for the storage and
      message usage: it answers, or it first re-enters quota_count on the
      same root (by opening mailboxes that consult the quota) and then
      carries on. */
  datatype Probe =
    | Answer(bytes: GetResult, count: GetResult)
    | Reenter(next: Probe)

  /** The answer the backend finally gives. */
  function FinalAnswer(p: Probe): (a: Probe)
    ensures a.Answer?
  {
    match p
    case Answer(_, _) => p
    case Reenter(next) => FinalAnswer(next)
  }

  /** A backend never answers UNLIMITED, and its values fit in 64 bits. */
  ghost predicate HonoursGetResource(p: Probe)
  {
    match p
    case Answer(b, c) =>
      !b.Unlimited? && !c.Unlimited? &&
      (b.Limited? ==> IsU64(b.value)) && (c.Limited? ==> IsU64(c.value))
    case Reenter(next) => HonoursGetResource(next)
  }

  /** A configured limit/backend pair (struct quota_root). The root also
      holds the usage that its backend records, as the backends' own
      structs extend quota_root in the C layout. */
  class QuotaRoot {
    const name: string
    const backend: Backend
    /** Seeded from the settings; a backend may replace them. */
    var bytesLimit: int
    var countLimit: int
    const noEnforcing: bool
    const autoUpdating: bool
    const disableUnlimitedTracking: bool
    var recounting: bool
    var quotaOverStatusChecked: bool
    const haveUnderWarnings: bool
    /** All namespaces using this root. */
    var namespaces: seq<Namespace>
    /** The usage the backend has recorded. */
    var backendBytes: int
    var backendCount: int

    ghost predicate Valid()
      reads this
    {
      IsI64(bytesLimit) && IsI64(countLimit) &&
      forall i, j :: 0 <= i < j < |namespaces| ==> namespaces[i] != namespaces[j]
    }

    constructor (name: string, backend: Backend, bytesLimit: int, countLimit: int,
                 noEnforcing: bool, autoUpdating: bool, disableUnlimitedTracking: bool,
                 haveUnderWarnings: bool)
      requires IsI64(bytesLimit) && IsI64(countLimit)
      ensures Valid() && !recounting && !quotaOverStatusChecked && namespaces == []
      ensures this.name == name && this.backend == backend
      ensures this.bytesLimit == bytesLimit && this.countLimit == countLimit
      ensures this.noEnforcing == noEnforcing && this.autoUpdating == autoUpdating
      ensures this.disableUnlimitedTracking == disableUnlimitedTracking
      ensures this.haveUnderWarnings == haveUnderWarnings
      ensures backendBytes == 0 && backendCount == 0
    {
      this.name := name;
      this.backend := backend;
      this.bytesLimit := bytesLimit;
      this.countLimit := countLimit;
      this.noEnforcing := noEnforcing;
      this.autoUpdating := autoUpdating;
      this.disableUnlimitedTracking := disableUnlimitedTracking;
      this.haveUnderWarnings := haveUnderWarnings;
      recounting := false;
      quotaOverStatusChecked := false;
      namespaces := [];
      backendBytes := 0;
      backendCount := 0;
    }

    /** A backend that reads the limits elsewhere replaces the configured ones. */
    method OverrideLimits(bytes: int, count: int)
      requires Valid() && IsI64(bytes) && IsI64(count)
      modifies this`bytesLimit, this`countLimit
      ensures Valid() && bytesLimit == bytes && countLimit == count
    {
      bytesLimit, countLimit := bytes, count;
    }

    /** Binds a namespace to this root; `added` tells whether it was new,
        the one time the backend's namespace_added is called for it. */
    method AddNamespace(ns: Namespace) returns (added: bool)
      requires Valid()
      modifies this`namespaces
      ensures Valid()
      ensures added <==> ns !in old(namespaces)
      ensures namespaces == if added then old(namespaces) + [ns] else old(namespaces)
    {
      added := ns !in namespaces;
      if added {
        namespaces := namespaces + [ns];
      }
    }

    /** quota_count: 1 with the storage and message usage, 0 when called
        again while this root is already being counted, -1 when the backend
        fails. The recursion guard is set around the backend call and is
        back to its old value on every return. */
    method Count(probe: Probe) returns (ret: int, bytes: nat, count: nat)
      requires HonoursGetResource(probe)
      modifies this`recounting
      ensures recounting == old(recounting)
      ensures ret == -1 || ret == 0 || ret == 1
      ensures ret == 0 <==> old(recounting)
      ensures ret == 1 <==> (!old(recounting) &&
                             FinalAnswer(probe).bytes.Limited? && FinalAnswer(probe).count.Limited?)
      ensures ret == 1 ==> bytes == FinalAnswer(probe).bytes.value &&
                           count == FinalAnswer(probe).count.value &&
                           IsU64(bytes) && IsU64(count)
      decreases probe, 1
    {
      if recounting {
        return 0, 0, 0;
      }
      recounting := true;
      ret, bytes, count := AskBackend(probe);
      recounting := false;
    }

    /** The backend's side of quota_count, run while the guard is set. A
        re-entrant quota_count on this root gets 0 and does not recurse. */
    method AskBackend(probe: Probe) returns (ret: int, bytes: nat, count: nat)
      requires recounting && HonoursGetResource(probe)
      modifies this`recounting
      ensures recounting
      ensures ret == -1 || ret == 1
      ensures ret == 1 <==> FinalAnswer(probe).bytes.Limited? && FinalAnswer(probe).count.Limited?
      ensures ret == 1 ==> bytes == FinalAnswer(probe).bytes.value &&
                           count == FinalAnswer(probe).count.value &&
                           IsU64(bytes) && IsU64(count)
      decreases probe, 0
    {
      match probe
      case Reenter(next) =>
        var inner, _, _ := Count(next);
        assert inner == 0;
        ret, bytes, count := AskBackend(next);
      case Answer(b, c) =>
        if b.Limited? && c.Limited? {
          ret, bytes, count := 1, b.value, c.value;
        } else {
          ret, bytes, count := -1, 0, 0;
        }
    }

    /** The backend's update for a finished transaction. With auto_updating
        the backend keeps the bytes itself, so only the count changes. */
    method Update(tx: QuotaTransaction, backendOk: bool) returns (ok: bool)
      modifies this`backendBytes, this`backendCount
      ensures ok == backendOk
      ensures ok ==> backendCount == old(backendCount) + tx.countUsed
      ensures ok ==> backendBytes == if autoUpdating then old(backendBytes)
                                     else old(backendBytes) + tx.bytesUsed
      ensures !ok ==> backendBytes == old(backendBytes) && backendCount == old(backendCount)
    {
      ok := backendOk;
      if ok {
        backendCount := backendCount + tx.countUsed;
        if !autoUpdating {
          backendBytes := backendBytes + tx.bytesUsed;
        }
      }
    }
  }

  // ---------------------------------------------------------------------
  // The per-user quota
  // ---------------------------------------------------------------------

  /** The first root with that name. */
  function FindRoot(roots: seq<QuotaRoot>, name: string): (r: Option<QuotaRoot>)
    ensures r.Some? <==> exists i :: 0 <= i < |roots| && roots[i].name == name
    ensures r.Some? ==> r.value in roots && r.value.name == name
  {
    if roots == [] then None
    else if roots[0].name == name then Some(roots[0])
    else FindRoot(roots[1..], name)
  }

  /** The settings a root is created from. */
  datatype RootSettings = RootSettings(
    backend: Backend, bytesLimit: int, countLimit: int,
    noEnforcing: bool, autoUpdating: bool, disableUnlimitedTracking: bool,
    haveUnderWarnings: bool)

  /** struct quota: the global roots used for private namespaces, and all
      roots seen so far, one per quota name. */
  class UserQuota {
    var globalPrivateRoots: seq<QuotaRoot>
    var allRoots: seq<QuotaRoot>

    ghost predicate Valid()
      reads this, allRoots
    {
      && (forall r :: r in globalPrivateRoots ==> r in allRoots)
      && (forall i, j :: 0 <= i < j < |allRoots| ==> allRoots[i].name != allRoots[j].name)
      && (forall r :: r in allRoots ==> r.Valid())
    }

    constructor (globalRoots: seq<QuotaRoot>)
      requires forall i, j :: 0 <= i < j < |globalRoots| ==> globalRoots[i].name != globalRoots[j].name
      requires forall r :: r in globalRoots ==> r.Valid()
      ensures Valid()
      ensures globalPrivateRoots == globalRoots && allRoots == globalRoots
    {
      globalPrivateRoots := globalRoots;
      allRoots := globalRoots;
    }

    /** quota_add_user_namespace: binds the namespace to the root of that
        quota name, creating the root from `settings` the first time the
        name is seen. */
    method AddUserNamespace(rootName: string, ns: Namespace, settings: RootSettings)
      returns (root: QuotaRoot)
      requires Valid()
      requires IsI64(settings.bytesLimit) && IsI64(settings.countLimit)
      modifies this, allRoots
      ensures Valid()
      ensures root.name == rootName && root in allRoots && ns in root.namespaces
      ensures globalPrivateRoots == old(globalPrivateRoots)
      ensures old(FindRoot(allRoots, rootName)).Some? ==>
                allRoots == old(allRoots) && root == old(FindRoot(allRoots, rootName)).value
      ensures old(FindRoot(allRoots, rootName)).None? ==>
                allRoots == old(allRoots) + [root] && fresh(root) && root.namespaces == [ns]
      ensures old(FindRoot(allRoots, rootName)).None? ==>
                && root.backend == settings.backend
                && root.bytesLimit == settings.bytesLimit && root.countLimit == settings.countLimit
                && root.noEnforcing == settings.noEnforcing && root.autoUpdating == settings.autoUpdating
                && root.disableUnlimitedTracking == settings.disableUnlimitedTracking
                && root.haveUnderWarnings == settings.haveUnderWarnings
                && !root.recounting && !root.quotaOverStatusChecked
                && root.backendBytes == 0 && root.backendCount == 0
      ensures forall r :: r in old(allRoots) && r != root ==> unchanged(r)
      ensures old(FindRoot(allRoots, rootName)).Some? ==>
                && root.namespaces == (if ns in old(root.namespaces) then old(root.namespaces)
                                       else old(root.namespaces) + [ns])
                && root.bytesLimit == old(root.bytesLimit) && root.countLimit == old(root.countLimit)
                && root.recounting == old(root.recounting)
                && root.quotaOverStatusChecked == old(root.quotaOverStatusChecked)
                && root.backendBytes == old(root.backendBytes)
                && root.backendCount == old(root.backendCount)
    {
      var found := FindRoot(allRoots, rootName);
      if found.Some? {
        root := found.value;
      } else {
        root := new QuotaRoot(rootName, settings.backend, settings.bytesLimit, settings.countLimit,
                              settings.noEnforcing, settings.autoUpdating,
                              settings.disableUnlimitedTracking, settings.haveUnderWarnings);
        allRoots := allRoots + [root];
      }
      var _ := root.AddNamespace(ns);
    }
  }

  // ---------------------------------------------------------------------
  // Transactions
  // ---------------------------------------------------------------------

  /** Whether usage is to be recomputed from the backends. */
  datatype Recalculate = Dont | IfHaveNegative | Force

  /** The ceilings and over-amounts the limit computation arrives at. */
  datatype Limits = Limits(bytesCeil: nat, bytesCeil2: nat, countCeil: nat,
                           bytesOver: nat, countOver: nat)

  /** The shape the header documents: 64-bit values; for each resource the
      ceiling or the over-amount is zero; the byte ceiling is the real
      ceiling, possibly raised by the storage grace. */
  predicate LimitsWellFormed(l: Limits, grace: nat)
  {
    && IsU64(l.bytesCeil) && IsU64(l.bytesCeil2) && IsU64(l.countCeil)
    && IsU64(l.bytesOver) && IsU64(l.countOver)
    && (l.bytesCeil == 0 || l.bytesOver == 0)
    && (l.bytesCeil2 == 0 || l.bytesOver == 0)
    && (l.countCeil == 0 || l.countOver == 0)
    && (l.bytesCeil == l.bytesCeil2 || l.bytesCeil == l.bytesCeil2 + grace)
  }

  /** The outcome of computing the limits: the limits, or a backend failure. */
  datatype LimitsOutcome = Computed(limits: Limits) | ComputeFailed

  /** struct quota_transaction_context. `roots` are the roots that apply to
      the transaction's mailbox. */
  class QuotaTransaction {
    const roots: seq<QuotaRoot>
    /** quota_storage_grace of the transaction's settings. */
    const storageGrace: nat
    var bytesUsed: int
    var countUsed: int
    var bytesCeil: nat
    var bytesCeil2: nat
    var countCeil: nat
    var bytesOver: nat
    var countOver: nat
    var recalculate: Recalculate
    var limitsSet: bool
    var failed: bool
    const syncTransaction: bool
    const autoUpdating: bool
    const noQuotaUpdates: bool
    /** Whether an allocation has been made in this transaction. */
    ghost var hasAllocated: bool

    /** The limits currently held. */
    function CurrentLimits(): Limits
      reads this
    {
      Limits(bytesCeil, bytesCeil2, countCeil, bytesOver, countOver)
    }

    ghost predicate Valid()
      reads this
    {
      && LimitsWellFormed(CurrentLimits(), storageGrace)
      && (hasAllocated ==> bytesCeil == bytesCeil2)
      && (autoUpdating <==> forall i :: 0 <= i < |roots| ==> roots[i].autoUpdating)
    }

    /** Opens a transaction over the given roots: no usage yet and no limits. */
    constructor (roots: seq<QuotaRoot>, storageGrace: nat, syncTransaction: bool, noQuotaUpdates: bool)
      ensures Valid()
      ensures this.roots == roots && this.storageGrace == storageGrace
      ensures this.syncTransaction == syncTransaction && this.noQuotaUpdates == noQuotaUpdates
      ensures autoUpdating <==> forall r :: r in roots ==> r.autoUpdating
      ensures bytesUsed == 0 && countUsed == 0 && CurrentLimits() == Limits(0, 0, 0, 0, 0)
      ensures !limitsSet && !failed && !hasAllocated && recalculate == Dont
    {
      this.roots := roots;
      this.storageGrace := storageGrace;
      this.syncTransaction := syncTransaction;
      this.noQuotaUpdates := noQuotaUpdates;
      autoUpdating := forall i | 0 <= i < |roots| :: roots[i].autoUpdating;
      bytesUsed, countUsed := 0, 0;
      bytesCeil, bytesCeil2, countCeil, bytesOver, countOver := 0, 0, 0, 0, 0;
      recalculate := Dont;
      limitsSet, failed := false, false;
      hasAllocated := false;
    }

    /** Stores the limits once. A later call changes nothing; a failed
        computation marks the transaction failed. The limits are computed
        before the first allocation. */
    method RecordLimits(outcome: LimitsOutcome)
      requires Valid()
      requires outcome.Computed? ==> LimitsWellFormed(outcome.limits, storageGrace)
      requires !limitsSet ==> !hasAllocated
      modifies this
      ensures Valid()
      ensures bytesUsed == old(bytesUsed) && countUsed == old(countUsed)
      ensures hasAllocated == old(hasAllocated) && recalculate == old(recalculate)
      ensures old(limitsSet) ==> limitsSet && failed == old(failed) &&
                                 CurrentLimits() == old(CurrentLimits())
      ensures !old(limitsSet) && outcome.Computed? ==>
                limitsSet && failed == old(failed) && CurrentLimits() == outcome.limits
      ensures !old(limitsSet) && outcome.ComputeFailed? ==>
                !limitsSet && failed && CurrentLimits() == old(CurrentLimits())
    {
      if limitsSet {
        return;
      }
      match outcome
      case Computed(l) =>
        bytesCeil, bytesCeil2, countCeil := l.bytesCeil, l.bytesCeil2, l.countCeil;
        bytesOver, countOver := l.bytesOver, l.countOver;
        limitsSet := true;
      case ComputeFailed =>
        failed := true;
    }

    /** An allocation of `size` bytes and one message. From the first one
        on, the byte ceiling is the real ceiling. */
    method Alloc(size: nat)
      requires Valid()
      modifies this
      ensures Valid() && hasAllocated
      ensures bytesUsed == old(bytesUsed) + size && countUsed == old(countUsed) + 1
      ensures bytesCeil == bytesCeil2
      ensures bytesCeil2 == old(bytesCeil2) && countCeil == old(countCeil)
      ensures bytesOver == old(bytesOver) && countOver == old(countOver)
      ensures limitsSet == old(limitsSet) && failed == old(failed) && recalculate == old(recalculate)
    {
      bytesUsed := bytesUsed + size;
      countUsed := countUsed + 1;
      bytesCeil := bytesCeil2;
      hasAllocated := true;
    }

    /** Any other change to the usage, such as an expunge (negative deltas):
        the ceilings and over-amounts stay as they were set. */
    method Account(bytesDelta: int, countDelta: int)
      requires Valid()
      modifies this`bytesUsed, this`countUsed
      ensures Valid()
      ensures bytesUsed == old(bytesUsed) + bytesDelta && countUsed == old(countUsed) + countDelta
    {
      bytesUsed := bytesUsed + bytesDelta;
      countUsed := countUsed + countDelta;
    }
  }
}
