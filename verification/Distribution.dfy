/**
 Placing ready tasks on blades, after crates/apohara-coordinator/src/distribution.rs and the
 affinity it reuses from crates/apohara-coordinator/src/auto_spawn.rs.
 */
module Distribution {
  import opened Options
  import opened Sorting

  datatype Intent = Implement | Refactor | Debug | Document | Test | Explain | Review | Other

  function DefaultProvider(intent: Intent): string {
    match intent
    case Implement | Debug | Test | Other => "claude-code-cli"
    case Refactor | Review => "codex-cli"
    case Document | Explain => "opencode-go"
  }

  datatype AutoSpawnPolicy = AutoSpawnPolicy(enabled: bool, overrides: map<Intent, string>, blocked: seq<Intent>)

  datatype AutoSpawnDecision =
    | Disabled
    | Spawn(providerId: string, intent: Intent)
    | Blocked(blockedIntent: Intent)

  function DecideAutoSpawn(intent: Intent, policy: AutoSpawnPolicy): AutoSpawnDecision {
    if !policy.enabled then Disabled
    else if intent in policy.blocked then Blocked(intent)
    else if intent in policy.overrides then Spawn(policy.overrides[intent], intent)
    else Spawn(DefaultProvider(intent), intent)
  }

  datatype Blade = Blade(providerId: string, binaryKey: string)
  datatype ReadyTask = ReadyTask(taskId: string, intent: Intent)
  datatype Assignment = Assignment(taskId: string, providerId: string)
  datatype Policy = Policy(affinity: AutoSpawnPolicy, perBinaryCapacity: nat)

  type Loads = map<string, nat>

  function LoadOn(loads: Loads, key: string): nat {
    if key in loads then loads[key] else 0
  }

  predicate HasRoom(loads: Loads, capacity: nat, key: string) {
    LoadOn(loads, key) < capacity
  }

  /** Live load on each binary while tasks are being placed. */
  class LoadLedger {
    const policy: Policy
    var inFlight: Loads

    constructor (policy: Policy, inFlight: Loads)
      ensures this.policy == policy && this.inFlight == inFlight
    {
      this.policy, this.inFlight := policy, inFlight;
    }

    method Bump(key: string)
      modifies this
      ensures inFlight == Bumped(old(inFlight), key)
    {
      if key !in inFlight {
        inFlight := inFlight[key := 0];
      }
      inFlight := inFlight[key := inFlight[key] + 1];
    }
  }

  ghost function Bumped(loads: Loads, key: string): Loads {
    loads[key := LoadOn(loads, key) + 1]
  }

  // ---- picking a blade -----------------------------------------------------------------------

  /** The first blade of the provider whose binary has room. */
  function FirstPreferred(roster: seq<Blade>, provider: string, loads: Loads, capacity: nat): (blade: Option<Blade>)
    ensures blade.Some? ==> blade.value in roster && blade.value.providerId == provider
                            && HasRoom(loads, capacity, blade.value.binaryKey)
    ensures blade.None? ==> forall b :: b in roster && b.providerId == provider ==>
        !HasRoom(loads, capacity, b.binaryKey)
  {
    if roster == [] then None
    else if roster[0].providerId == provider && HasRoom(loads, capacity, roster[0].binaryKey) then Some(roster[0])
    else FirstPreferred(roster[1..], provider, loads, capacity)
  }

  /** The first among the least-loaded blades with room. */
  function LeastLoaded(roster: seq<Blade>, loads: Loads, capacity: nat): (blade: Option<Blade>)
    ensures blade.None? <==> forall b :: b in roster ==> !HasRoom(loads, capacity, b.binaryKey)
    ensures blade.Some? ==>
              && blade.value in roster && HasRoom(loads, capacity, blade.value.binaryKey)
              && forall b :: b in roster ==> LoadOn(loads, blade.value.binaryKey) <= LoadOn(loads, b.binaryKey)
  {
    if roster == [] then None
    else
      var last, best := roster[|roster| - 1], LeastLoaded(roster[..|roster| - 1], loads, capacity);
      assert roster == roster[..|roster| - 1] + [last];
      if !HasRoom(loads, capacity, last.binaryKey) then best
      else if best.Some? && LoadOn(loads, best.value.binaryKey) <= LoadOn(loads, last.binaryKey) then best
      else Some(last)
  }

  /** Some blade exactly when any has room; and while affinity has no say, a least-loaded one. */
  function PickBlade(intent: Intent, roster: seq<Blade>, loads: Loads, policy: Policy): (blade: Option<Blade>)
    ensures blade.None? <==> forall b :: b in roster ==> !HasRoom(loads, policy.perBinaryCapacity, b.binaryKey)
    ensures blade.Some? ==> blade.value in roster && HasRoom(loads, policy.perBinaryCapacity, blade.value.binaryKey)
    ensures blade.Some? && !policy.affinity.enabled ==>
              forall b :: b in roster ==> LoadOn(loads, blade.value.binaryKey) <= LoadOn(loads, b.binaryKey)
  {
    var decision := DecideAutoSpawn(intent, policy.affinity);
    var preferred := if decision.Spawn? then FirstPreferred(roster, decision.providerId, loads,
        policy.perBinaryCapacity) else None;
    if preferred.Some? then preferred else LeastLoaded(roster, loads, policy.perBinaryCapacity)
  }

  /** Affinity is honoured whenever a blade of the wanted provider has room. */
  lemma AffinityHonoured(intent: Intent, roster: seq<Blade>, loads: Loads, policy: Policy, b: Blade)
    requires policy.affinity.enabled && intent !in policy.affinity.blocked
    requires b in roster && HasRoom(loads, policy.perBinaryCapacity, b.binaryKey)
    requires b.providerId == if intent in policy.affinity.overrides then policy.affinity.overrides[intent]
        else DefaultProvider(intent)
    ensures PickBlade(intent, roster, loads, policy).Some?
    ensures PickBlade(intent, roster, loads, policy).value.providerId == b.providerId
  {
    assert DecideAutoSpawn(intent, policy.affinity) == Spawn(b.providerId, intent);
  }

  /** Of equally loaded blades the one earliest in the roster is taken. */
  lemma {:induction false} TiesGoToTheFirst(roster: seq<Blade>, loads: Loads, capacity: nat, i: nat)
    requires i < |roster| && HasRoom(loads, capacity, roster[i].binaryKey)
    requires forall j :: 0 <= j < |roster| ==> LoadOn(loads, roster[i].binaryKey) <= LoadOn(loads, roster[j].binaryKey)
    requires forall j :: 0 <= j < i ==> LoadOn(loads, roster[i].binaryKey) < LoadOn(loads, roster[j].binaryKey)
    ensures LeastLoaded(roster, loads, capacity) == Some(roster[i])
  {
    var rest := roster[..|roster| - 1];
    if i < |rest| {
      assert forall j :: 0 <= j < |rest| ==> rest[j] == roster[j];
      TiesGoToTheFirst(rest, loads, capacity, i);
    }
  }

  /** The provider a task's intent asks for, if affinity is on and lets it ask. */
  ghost function Wanted(intent: Intent, affinity: AutoSpawnPolicy): Option<string> {
    if affinity.enabled && intent !in affinity.blocked
    then Some(if intent in affinity.overrides then affinity.overrides[intent] else DefaultProvider(intent))
    else None
  }

  /** Who gets what by default. */
  lemma DefaultProviders(intent: Intent)
    ensures DefaultProvider(intent) == "codex-cli" <==> intent in {Refactor, Review}
    ensures DefaultProvider(intent) == "opencode-go" <==> intent in {Document, Explain}
    ensures DefaultProvider(intent) == "claude-code-cli" <==> intent in {Implement, Debug, Test, Other}
  {
    assert "codex-cli"[1] == 'o' && "opencode-go"[1] == 'p' && "claude-code-cli"[1] == 'l';
  }

  ghost predicate Serves(b: Blade, provider: string, loads: Loads, capacity: nat) {
    b.providerId == provider && HasRoom(loads, capacity, b.binaryKey)
  }

  /** Place `i` of the roster is the first blade of the provider with room. */
  ghost predicate FirstServing(roster: seq<Blade>, i: nat, provider: string, loads: Loads, capacity: nat) {
    && i < |roster| && Serves(roster[i], provider, loads, capacity)
    && forall j :: 0 <= j < i ==> !Serves(roster[j], provider, loads, capacity)
  }

  /** Place `i` of the roster is the first of the least-loaded blades with room. */
  ghost predicate FirstLeast(roster: seq<Blade>, i: nat, loads: Loads, capacity: nat) {
    && i < |roster| && HasRoom(loads, capacity, roster[i].binaryKey)
    && (forall j :: 0 <= j < |roster| ==> LoadOn(loads, roster[i].binaryKey) <= LoadOn(loads, roster[j].binaryKey))
    && (forall j :: 0 <= j < i ==> LoadOn(loads, roster[i].binaryKey) < LoadOn(loads, roster[j].binaryKey))
  }

  ghost predicate SomeServes(roster: seq<Blade>, provider: string, loads: Loads, capacity: nat) {
    exists j :: 0 <= j < |roster| && Serves(roster[j], provider, loads, capacity)
  }

  /**
   The blade is the first of the wanted provider with room; and the first least-loaded one with room
   when no provider is wanted or none of its blades has room.
   */
  ghost predicate RightBlade(blade: Blade, intent: Intent, roster: seq<Blade>, loads: Loads, policy: Policy) {
    var wanted, capacity := Wanted(intent, policy.affinity), policy.perBinaryCapacity;
    if wanted.Some? && SomeServes(roster, wanted.value, loads, capacity)
    then exists i: nat :: FirstServing(roster, i, wanted.value, loads, capacity) && roster[i] == blade
    else exists i: nat :: FirstLeast(roster, i, loads, capacity) && roster[i] == blade
  }

  lemma {:induction false} PreferredIsFirst(roster: seq<Blade>, provider: string, loads: Loads, capacity: nat)
    returns (i: nat)
    requires FirstPreferred(roster, provider, loads, capacity).Some?
    ensures FirstServing(roster, i, provider, loads, capacity)
    ensures roster[i] == FirstPreferred(roster, provider, loads, capacity).value
  {
    if Serves(roster[0], provider, loads, capacity) {
      i := 0;
    } else {
      i := PreferredIsFirst(roster[1..], provider, loads, capacity);
      i := i + 1;
    }
  }

  ghost predicate Beats(best: Option<Blade>, last: Blade, loads: Loads, capacity: nat) {
    || !HasRoom(loads, capacity, last.binaryKey)
    || (best.Some? && LoadOn(loads, best.value.binaryKey) <= LoadOn(loads, last.binaryKey))
  }

  lemma {:induction false} LeastIsFirst(roster: seq<Blade>, loads: Loads, capacity: nat) returns (i: nat)
    requires LeastLoaded(roster, loads, capacity).Some?
    ensures FirstLeast(roster, i, loads, capacity) && roster[i] == LeastLoaded(roster, loads, capacity).value
  {
    var rest, last := roster[..|roster| - 1], roster[|roster| - 1];
    var best := LeastLoaded(rest, loads, capacity);
    if Beats(best, last, loads, capacity) {
      i := LeastIsFirst(rest, loads, capacity);
      assert forall j :: 0 <= j < |rest| ==> rest[j] == roster[j];
    } else {
      i := |roster| - 1;
      forall j | 0 <= j < i ensures LoadOn(loads, last.binaryKey) < LoadOn(loads, roster[j].binaryKey) {
        assert roster[j] == rest[j] && rest[j] in rest;
      }
    }
  }

  lemma NobodyServes(roster: seq<Blade>, provider: string, loads: Loads, capacity: nat)
    requires FirstPreferred(roster, provider, loads, capacity).None?
    ensures !SomeServes(roster, provider, loads, capacity)
  {
    forall j | 0 <= j < |roster| ensures !Serves(roster[j], provider, loads, capacity) {
      assert roster[j] in roster;
    }
  }

  lemma PicksRightBlade(intent: Intent, roster: seq<Blade>, loads: Loads, policy: Policy)
    requires PickBlade(intent, roster, loads, policy).Some?
    ensures RightBlade(PickBlade(intent, roster, loads, policy).value, intent, roster, loads, policy)
  {
    var wanted, capacity := Wanted(intent, policy.affinity), policy.perBinaryCapacity;
    if wanted.Some? && FirstPreferred(roster, wanted.value, loads, capacity).Some? {
      var i := PreferredIsFirst(roster, wanted.value, loads, capacity);
    } else {
      if wanted.Some? {
        NobodyServes(roster, wanted.value, loads, capacity);
      }
      var i := LeastIsFirst(roster, loads, capacity);
    }
  }

  // ---- spare capacity ------------------------------------------------------------------------

  /** The distinct binaries of the roster, in order of appearance. */
  ghost function Binaries(roster: seq<Blade>): (keys: seq<string>)
    ensures NoDuplicates(keys)
    ensures forall k :: k in keys <==> exists b :: b in roster && b.binaryKey == k
  {
    if roster == [] then []
    else
      var last, keys := roster[|roster| - 1], Binaries(roster[..|roster| - 1]);
      assert roster == roster[..|roster| - 1] + [last];
      if last.binaryKey in keys then keys else keys + [last.binaryKey]
  }

  ghost function Spare(loads: Loads, capacity: nat, key: string): nat {
    if HasRoom(loads, capacity, key) then capacity - LoadOn(loads, key) else 0
  }

  ghost function TotalSpare(keys: seq<string>, loads: Loads, capacity: nat): nat {
    if keys == [] then 0
    else TotalSpare(keys[..|keys| - 1], loads, capacity) + Spare(loads, capacity, keys[|keys| - 1])
  }

  lemma {:induction false} NothingSpare(keys: seq<string>, loads: Loads, capacity: nat)
    ensures TotalSpare(keys, loads, capacity) == 0 <==> forall k :: k in keys ==> !HasRoom(loads, capacity, k)
  {
    if keys != [] {
      NothingSpare(keys[..|keys| - 1], loads, capacity);
      assert keys == keys[..|keys| - 1] + [keys[|keys| - 1]];
    }
  }

  /** Each placement uses up one unit of the spare capacity, wherever it goes. */
  lemma {:induction false} BumpTakesOne(keys: seq<string>, loads: Loads, capacity: nat, key: string)
    requires NoDuplicates(keys) && HasRoom(loads, capacity, key)
    ensures TotalSpare(keys, Bumped(loads, key), capacity)
         == TotalSpare(keys, loads, capacity) - (if key in keys then 1 else 0)
  {
    if keys != [] {
      BumpTakesOne(keys[..|keys| - 1], loads, capacity, key);
      assert keys == keys[..|keys| - 1] + [keys[|keys| - 1]];
    }
  }

  // ---- placing tasks ---------------------------------------------------------------------------

  ghost function Min(a: nat, b: nat): nat {
    if a <= b then a else b
  }

  /** How many of the chosen blades run the binary. */
  ghost function Uses(chosen: seq<Blade>, key: string): nat {
    if chosen == [] then 0
    else Uses(chosen[..|chosen| - 1], key) + if chosen[|chosen| - 1].binaryKey == key then 1 else 0
  }

  lemma UsesNext(chosen: seq<Blade>, blade: Blade, key: string)
    ensures Uses(chosen + [blade], key) == Uses(chosen, key) + if blade.binaryKey == key then 1 else 0
  {
    assert (chosen + [blade])[..|chosen|] == chosen;
  }

  /** The load once the chosen blades run too. */
  ghost function FinalLoad(initial: Loads, chosen: seq<Blade>, key: string): nat {
    LoadOn(initial, key) + Uses(chosen, key)
  }

  /** `out` puts the first tasks, in order, on the chosen blades. */
  ghost predicate Placed(ready: seq<ReadyTask>, roster: seq<Blade>, chosen: seq<Blade>, out: seq<Assignment>) {
    && |chosen| == |out| <= |ready|
    && forall k :: 0 <= k < |out| ==>
         chosen[k] in roster && out[k] == Assignment(ready[k].taskId, chosen[k].providerId)
  }

  ghost predicate WithinCapacity(initial: Loads, chosen: seq<Blade>, capacity: nat) {
    forall key :: Uses(chosen, key) > 0 ==> FinalLoad(initial, chosen, key) <= capacity
  }

  ghost predicate Saturated(roster: seq<Blade>, initial: Loads, chosen: seq<Blade>, capacity: nat) {
    forall b :: b in roster ==> FinalLoad(initial, chosen, b.binaryKey) >= capacity
  }

  /** No binary that was given work is more than one task ahead of any other in the roster. */
  ghost predicate Balanced(roster: seq<Blade>, initial: Loads, chosen: seq<Blade>) {
    forall key, b :: Uses(chosen, key) > 0 && b in roster ==>
                       FinalLoad(initial, chosen, key) <= FinalLoad(initial, chosen, b.binaryKey) + 1
  }

  /** The ledger's loads are the initial ones plus what has been placed. */
  ghost predicate Accounts(loads: Loads, initial: Loads, chosen: seq<Blade>) {
    forall key :: LoadOn(loads, key) == FinalLoad(initial, chosen, key)
  }

  lemma AccountsNext(loads: Loads, initial: Loads, chosen: seq<Blade>, blade: Blade)
    requires Accounts(loads, initial, chosen)
    ensures Accounts(Bumped(loads, blade.binaryKey), initial, chosen + [blade])
  {
    forall key ensures LoadOn(Bumped(loads, blade.binaryKey), key) == FinalLoad(initial, chosen + [blade], key) {
      UsesNext(chosen, blade, key);
      assert LoadOn(loads, key) == FinalLoad(initial, chosen, key);
    }
  }

  /** Task `k` went to the right blade, given the initial loads and where the tasks before it went. */
  ghost predicate RightlyPlaced(ready: seq<ReadyTask>, roster: seq<Blade>, policy: Policy, initial: Loads,
      chosen: seq<Blade>, k: nat)
    requires k < |chosen| <= |ready|
  {
    RightBlade(chosen[k], ready[k].intent, roster, LoadsAfter(initial, chosen[..k]), policy)
  }

  /** The loads once the chosen blades run too. */
  ghost function LoadsAfter(initial: Loads, chosen: seq<Blade>): Loads {
    if chosen == [] then initial
    else Bumped(LoadsAfter(initial, chosen[..|chosen| - 1]), chosen[|chosen| - 1].binaryKey)
  }

  lemma LoadsNext(initial: Loads, chosen: seq<Blade>, blade: Blade)
    ensures LoadsAfter(initial, chosen + [blade]) == Bumped(LoadsAfter(initial, chosen), blade.binaryKey)
  {
    assert (chosen + [blade])[..|chosen|] == chosen;
  }

  /** They are the initial loads, or none where there were none, and one for each use. */
  lemma {:induction false} LoadsAccount(initial: Loads, chosen: seq<Blade>)
    ensures Accounts(LoadsAfter(initial, chosen), initial, chosen)
    ensures forall key ::
              FinalLoad(initial, chosen, key) == Uses(chosen, key) + if key in initial then initial[key] else 0
  {
    if chosen != [] {
      var before, blade := chosen[..|chosen| - 1], chosen[|chosen| - 1];
      LoadsAccount(initial, before);
      assert before + [blade] == chosen;
      AccountsNext(LoadsAfter(initial, before), initial, before, blade);
    }
  }

  ghost predicate AllRight(ready: seq<ReadyTask>, roster: seq<Blade>, policy: Policy, initial: Loads,
      chosen: seq<Blade>)
  {
    |chosen| <= |ready| && forall k :: 0 <= k < |chosen| ==> RightlyPlaced(ready, roster, policy, initial, chosen, k)
  }

  lemma RightNext(ready: seq<ReadyTask>, roster: seq<Blade>, policy: Policy, initial: Loads, chosen: seq<Blade>,
      blade: Blade)
    requires |chosen| < |ready| && AllRight(ready, roster, policy, initial, chosen)
    requires PickBlade(ready[|chosen|].intent, roster, LoadsAfter(initial, chosen), policy) == Some(blade)
    ensures AllRight(ready, roster, policy, initial, chosen + [blade])
  {
    var longer := chosen + [blade];
    forall k | 0 <= k < |longer| ensures RightlyPlaced(ready, roster, policy, initial, longer, k) {
      if k < |chosen| {
        assert RightlyPlaced(ready, roster, policy, initial, chosen, k) && longer[..k] == chosen[..k];
      } else {
        assert longer[..k] == chosen;
        PicksRightBlade(ready[k].intent, roster, LoadsAfter(initial, chosen), policy);
      }
    }
  }

  lemma CapacityNext(loads: Loads, initial: Loads, chosen: seq<Blade>, blade: Blade, capacity: nat)
    requires Accounts(loads, initial, chosen) && WithinCapacity(initial, chosen, capacity)
    requires HasRoom(loads, capacity, blade.binaryKey)
    ensures WithinCapacity(initial, chosen + [blade], capacity)
  {
    forall key | Uses(chosen + [blade], key) > 0
      ensures FinalLoad(initial, chosen + [blade], key) <= capacity
    {
      UsesNext(chosen, blade, key);
      assert LoadOn(loads, key) == FinalLoad(initial, chosen, key);
    }
  }

  lemma BalancedNext(roster: seq<Blade>, loads: Loads, initial: Loads, chosen: seq<Blade>, blade: Blade)
    requires Accounts(loads, initial, chosen) && Balanced(roster, initial, chosen)
    requires forall b :: b in roster ==> LoadOn(loads, blade.binaryKey) <= LoadOn(loads, b.binaryKey)
    ensures Balanced(roster, initial, chosen + [blade])
  {
    forall key, b | Uses(chosen + [blade], key) > 0 && b in roster
      ensures FinalLoad(initial, chosen + [blade], key) <= FinalLoad(initial, chosen + [blade], b.binaryKey) + 1
    {
      UsesNext(chosen, blade, key);
      UsesNext(chosen, blade, b.binaryKey);
      assert LoadOn(loads, blade.binaryKey) == FinalLoad(initial, chosen, blade.binaryKey);
      assert LoadOn(loads, b.binaryKey) == FinalLoad(initial, chosen, b.binaryKey);
    }
  }

  /** A blade was picked, so its binary is one of the roster's and one unit of spare is gone. */
  lemma SpareNext(roster: seq<Blade>, loads: Loads, capacity: nat, blade: Blade)
    requires blade in roster && HasRoom(loads, capacity, blade.binaryKey)
    ensures TotalSpare(Binaries(roster), Bumped(loads, blade.binaryKey), capacity)
         == TotalSpare(Binaries(roster), loads, capacity) - 1
  {
    BumpTakesOne(Binaries(roster), loads, capacity, blade.binaryKey);
  }

  lemma NoneToSpare(roster: seq<Blade>, loads: Loads, capacity: nat)
    ensures TotalSpare(Binaries(roster), loads, capacity) == 0
       <==> forall b :: b in roster ==> !HasRoom(loads, capacity, b.binaryKey)
  {
    NothingSpare(Binaries(roster), loads, capacity);
    if forall b :: b in roster ==> !HasRoom(loads, capacity, b.binaryKey) {
    } else {
      var b :| b in roster && HasRoom(loads, capacity, b.binaryKey);
      assert b.binaryKey in Binaries(roster);
    }
  }

  /** Where the placing stands after `n` tasks: who was placed where, and what is left to spare of `total`. */
  ghost predicate SoFar(ready: seq<ReadyTask>, roster: seq<Blade>, policy: Policy, initial: Loads, total: nat,
                        n: nat, loads: Loads, chosen: seq<Blade>, out: seq<Assignment>)
  {
    && Placed(ready, roster, chosen, out) && |out| <= n
    && Accounts(loads, initial, chosen)
    && WithinCapacity(initial, chosen, policy.perBinaryCapacity)
    && (!policy.affinity.enabled ==> Balanced(roster, initial, chosen))
    && |out| + TotalSpare(Binaries(roster), loads, policy.perBinaryCapacity) == total
    && (|out| < n ==> |out| == total)
  }

  lemma PlacedOne(ready: seq<ReadyTask>, roster: seq<Blade>, policy: Policy, initial: Loads, total: nat,
                  n: nat, loads: Loads, chosen: seq<Blade>, out: seq<Assignment>, blade: Blade)
    requires n < |ready| && SoFar(ready, roster, policy, initial, total, n, loads, chosen, out)
    requires PickBlade(ready[n].intent, roster, loads, policy) == Some(blade)
    ensures |out| == n
    ensures SoFar(ready, roster, policy, initial, total, n + 1,
                  Bumped(loads, blade.binaryKey), chosen + [blade],
                      out + [Assignment(ready[n].taskId, blade.providerId)])
  {
    NoneToSpare(roster, loads, policy.perBinaryCapacity);
    AccountsNext(loads, initial, chosen, blade);
    CapacityNext(loads, initial, chosen, blade, policy.perBinaryCapacity);
    SpareNext(roster, loads, policy.perBinaryCapacity, blade);
    if !policy.affinity.enabled {
      BalancedNext(roster, loads, initial, chosen, blade);
    }
  }

  lemma PlacedNone(ready: seq<ReadyTask>, roster: seq<Blade>, policy: Policy, initial: Loads, total: nat,
                   n: nat, loads: Loads, chosen: seq<Blade>, out: seq<Assignment>)
    requires n < |ready| && SoFar(ready, roster, policy, initial, total, n, loads, chosen, out)
    requires PickBlade(ready[n].intent, roster, loads, policy) == None
    ensures SoFar(ready, roster, policy, initial, total, n + 1, loads, chosen, out)
  {
    NoneToSpare(roster, loads, policy.perBinaryCapacity);
  }

  lemma AllPlaced(ready: seq<ReadyTask>, roster: seq<Blade>, policy: Policy, initial: Loads, total: nat,
                  loads: Loads, chosen: seq<Blade>, out: seq<Assignment>)
    requires SoFar(ready, roster, policy, initial, total, |ready|, loads, chosen, out)
    ensures |out| == Min(|ready|, total)
    ensures |out| < |ready| ==> Saturated(roster, initial, chosen, policy.perBinaryCapacity)
  {
    NoneToSpare(roster, loads, policy.perBinaryCapacity);
    if |out| < |ready| {
      forall b | b in roster ensures FinalLoad(initial, chosen, b.binaryKey) >= policy.perBinaryCapacity {
        assert LoadOn(loads, b.binaryKey) == FinalLoad(initial, chosen, b.binaryKey);
      }
    }
  }

  /**
   Exactly as many tasks are placed as there is spare capacity for, first come first served; no
   binary goes past its capacity; tasks wait only when every blade is saturated; each goes to the
   blade its intent asks for, or else to the least loaded; and without affinity the load stays balanced.
   */
  method Assign(ready: seq<ReadyTask>, roster: seq<Blade>, policy: Policy, currentInFlight: Loads)
    returns (out: seq<Assignment>, ghost chosen: seq<Blade>)
    ensures |out| == Min(|ready|, TotalSpare(Binaries(roster), currentInFlight, policy.perBinaryCapacity))
    ensures Placed(ready, roster, chosen, out)
    ensures AllRight(ready, roster, policy, currentInFlight, chosen)
    ensures WithinCapacity(currentInFlight, chosen, policy.perBinaryCapacity)
    ensures |out| < |ready| ==> Saturated(roster, currentInFlight, chosen, policy.perBinaryCapacity)
    ensures !policy.affinity.enabled ==> Balanced(roster, currentInFlight, chosen)
  {
    var ledger := new LoadLedger(policy, currentInFlight);
    ghost var total := TotalSpare(Binaries(roster), currentInFlight, policy.perBinaryCapacity);
    out, chosen := [], [];
    for i := 0 to |ready|
      invariant SoFar(ready, roster, policy, currentInFlight, total, i, ledger.inFlight, chosen, out)
      invariant ledger.inFlight == LoadsAfter(currentInFlight, chosen)
      invariant AllRight(ready, roster, policy, currentInFlight, chosen)
    {
      var blade := PickBlade(ready[i].intent, roster, ledger.inFlight, policy);
      if blade.Some? {
        PlacedOne(ready, roster, policy, currentInFlight, total, i, ledger.inFlight, chosen, out, blade.value);
        RightNext(ready, roster, policy, currentInFlight, chosen, blade.value);
        LoadsNext(currentInFlight, chosen, blade.value);
        ledger.Bump(blade.value.binaryKey);
        out := out + [Assignment(ready[i].taskId, blade.value.providerId)];
        chosen := chosen + [blade.value];
      } else {
        PlacedNone(ready, roster, policy, currentInFlight, total, i, ledger.inFlight, chosen, out);
      }
    }
    AllPlaced(ready, roster, policy, currentInFlight, total, ledger.inFlight, chosen, out);
  }
}
