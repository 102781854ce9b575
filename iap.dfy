/** In-app purchases (Behaviors/Managers/IAPManager.cs): which level pak a level
    belongs to, the locally remembered grants, and the queue of callbacks that
    wait for a grant. The store SDK is an oracle: a `Store` value says whether it
    has finished initialising and which products carry a receipt. */
module IAP {
  import opened Wrappers
  import opened StringExtensions

  const IAPRemoveAds: string := "remove_ads"
  const LevelPak1: string := "level_pak_1"
  const ActiveLevelPaks: seq<string> := [LevelPak1]

  /** Every single purchase the manager knows: remove-ads, then the level paks. */
  const IAPSingles: seq<string> := [IAPRemoveAds] + ActiveLevelPaks

  /** The levels that only a purchase of `level_pak_1` unlocks. */
  const LevelPak1Levels: set<string> := {
    "Hard-05_level_2019-06-28-12-33-01-614_ground-32_moves-66_items-7_cols-6_rows-9",
    "Hard-06_level_2019-06-28-16-24-03-174_ground-35_moves-74_items-8_cols-7_rows-8",
    "Hard-07_level_2019-06-28-13-37-42-021_ground-41_moves-74_items-10_cols-7_rows-9",
    "Hard-08_level_2019-06-27-22-37-11-943_ground-31_moves-76_items-9_cols-7_rows-7",
    "Hard-09_level_2019-06-28-09-19-36-527_ground-36_moves-79_items-9_cols-7_rows-8",
    "Hard-10_level_2019-06-27-22-35-32-578_ground-48_moves-80_items-13_cols-7_rows-9",
    "Hard-11_level_2019-06-28-21-47-59-630_ground-43_moves-81_items-10_cols-9_rows-8",
    "Hard-12_level_2019-06-28-12-28-32-380_ground-45_moves-89_items-12_cols-9_rows-8",
    "Hard-13_level_2019-06-28-12-17-33-940_ground-37_moves-92_items-10_cols-9_rows-7",
    "Hard-14_level_2019-06-28-21-26-28-949_ground-41_moves-93_items-11_cols-9_rows-7",
    "Hard-15_level_2019-06-28-21-57-55-461_ground-35_moves-95_items-11_cols-9_rows-5",
    "Hard-16_level_2019-06-28-16-07-51-767_ground-33_moves-98_items-10_cols-6_rows-8",
    "Hard-17_level_2019-06-27-22-31-04-104_ground-59_moves-102_items-9_cols-9_rows-9",
    "Hard-18_level_2019-06-28-13-43-53-028_ground-51_moves-154_items-14_cols-9_rows-7",
    "Med-05_level_2019-06-27-23-46-15-828_ground-35_moves-36_items-6_cols-9_rows-5",
    "Med-06_level_2019-06-28-13-29-50-219_ground-33_moves-38_items-7_cols-7_rows-8",
    "Med-07_level_2019-06-28-09-11-25-206_ground-29_moves-44_items-7_cols-7_rows-7",
    "Med-08_level_2019-06-27-19-44-30-427_ground-28_moves-46_items-9_cols-8_rows-6",
    "Med-09_level_2019-06-28-09-02-30-140_ground-28_moves-46_items-9_cols-7_rows-6",
    "Med-10_level_2019-06-28-09-16-05-176_ground-37_moves-46_items-10_cols-7_rows-8",
    "Med-11_level_2019-06-27-23-50-13-425_ground-38_moves-46_items-6_cols-7_rows-9",
    "Med-12_level_2019-06-27-22-32-50-821_ground-26_moves-47_items-9_cols-5_rows-7",
    "Med-13_level_2019-06-28-12-40-04-429_ground-37_moves-47_items-8_cols-8_rows-7",
    "Med-14_level_2019-06-28-09-38-28-492_ground-40_moves-47_items-7_cols-10_rows-6",
    "Med-15_level_2019-06-28-16-10-14-351_ground-26_moves-48_items-7_cols-5_rows-8",
    "Med-16_level_2019-06-27-23-38-35-959_ground-30_moves-53_items-8_cols-6_rows-6",
    "Med-17_level_2019-06-28-12-24-24-526_ground-34_moves-55_items-11_cols-8_rows-7",
    "Med-18_level_2019-06-27-22-37-57-683_ground-34_moves-55_items-8_cols-7_rows-7"
  }

  /** `IAPLevelLookup`: pak name to the levels it unlocks. */
  const IAPLevelLookup: map<string, set<string>> := map[LevelPak1 := LevelPak1Levels]

  /** The first pak of `paks` that the lookup knows and whose levels contain
      `levelName`, or "" when there is none. */
  function FirstPak(paks: seq<string>, levelName: string): (r: string)
    ensures r == "" || r in paks
  {
    if paks == [] then ""
    else if paks[0] in IAPLevelLookup && levelName in IAPLevelLookup[paks[0]] then paks[0]
    else FirstPak(paks[1..], levelName)
  }

  /** `IAPLevelPak.GetIAPRequirement`: the active pak that unlocks `levelName`,
      or "" when the level is free. */
  function GetIAPRequirement(levelName: string): string
  {
    FirstPak(ActiveLevelPaks, levelName)
  }

  /** The requirement is "" or an active pak, and it is "" exactly when no
      active pak lists the level. */
  lemma RequirementIsActivePak(levelName: string)
    ensures GetIAPRequirement(levelName) == "" || GetIAPRequirement(levelName) in ActiveLevelPaks
    ensures GetIAPRequirement(levelName) == "" <==> levelName !in LevelPak1Levels
    ensures GetIAPRequirement(levelName) != "" ==> GetIAPRequirement(levelName) == LevelPak1
  {
    var r := GetIAPRequirement(levelName);
    assert ActiveLevelPaks[0] == LevelPak1;
    if levelName in LevelPak1Levels {
      assert LevelPak1 in IAPLevelLookup && levelName in IAPLevelLookup[LevelPak1];
      assert r == LevelPak1;
    }
  }

  /** What the store SDK reports: whether the store listener has finished
      initialising, whether its controller and extension provider exist, and
      which products hold a receipt. */
  datatype Store = Store(initializationComplete: bool, controllerReady: bool, receipts: set<string>)
  {
    /** `IAPManager.IsInitialized`. */
    predicate IsInitialized()
    {
      controllerReady && initializationComplete
    }
  }

  /** A grant holds when the key is remembered locally, or when the store is
      initialised and has a receipt for it. */
  predicate HasGrant(localGrants: set<string>, store: Store, iapKey: string)
  {
    (IsValid(Some(iapKey)) && iapKey in localGrants)
      || (store.IsInitialized() && iapKey in store.receipts)
  }

  /** A local grant is enough, whatever the store reports. */
  lemma LocalGrantSuffices(localGrants: set<string>, store: Store, iapKey: string)
    requires iapKey != "" && iapKey in localGrants
    ensures HasGrant(localGrants, store, iapKey)
  {
  }

  /** An uninitialised store leaves only the local grants. */
  lemma UninitialisedStoreIsLocalOnly(localGrants: set<string>, store: Store, iapKey: string)
    requires !store.IsInitialized()
    ensures HasGrant(localGrants, store, iapKey) <==> iapKey != "" && iapKey in localGrants
  {
  }

  /** A queued callback: the key it waits for and the action to run. */
  type Action = nat
  datatype Callback = Callback(key: string, action: Action)

  /** The actions of the callbacks waiting for `key`, in queue order. */
  function ActionsFor(callbacks: seq<Callback>, key: string): (r: seq<Action>)
    ensures |r| <= |callbacks|
  {
    if callbacks == [] then []
    else (if callbacks[0].key == key then [callbacks[0].action] else []) + ActionsFor(callbacks[1..], key)
  }

  /** The callbacks waiting for `key`, in queue order (`executedCallbacks`). */
  function CallbacksFor(callbacks: seq<Callback>, key: string): (r: seq<Callback>)
    ensures |r| <= |callbacks|
  {
    if callbacks == [] then []
    else (if callbacks[0].key == key then [callbacks[0]] else []) + CallbacksFor(callbacks[1..], key)
  }

  /** LINQ `Except`: the distinct elements of `a` that are not in `excluded`, in
      order of first occurrence. */
  function Except<T(==,!new)>(a: seq<T>, excluded: seq<T>): (r: seq<T>)
    ensures forall x :: x in r <==> x in a && x !in excluded
    ensures forall i, j :: 0 <= i < j < |r| ==> r[i] != r[j]
  {
    if a == [] then []
    else if a[0] in excluded then Except(a[1..], excluded)
    else
      var rest := Except(a[1..], excluded + [a[0]]);
      assert a[0] !in rest;
      [a[0]] + rest
  }

  /** The loop of `Grant`: walk the queue, running (`run`) and collecting
      (`executed`) every callback registered for `key`. */
  method RunCallbacks(callbacks: seq<Callback>, key: string) returns (executed: seq<Callback>, run: seq<Action>)
    ensures executed == CallbacksFor(callbacks, key)
    ensures run == ActionsFor(callbacks, key)
  {
    executed, run := [], [];
    var i := 0;
    while i < |callbacks|
      invariant 0 <= i <= |callbacks|
      invariant executed + CallbacksFor(callbacks[i..], key) == CallbacksFor(callbacks, key)
      invariant run + ActionsFor(callbacks[i..], key) == ActionsFor(callbacks, key)
    {
      var callback := callbacks[i];
      QueueStep(callbacks, i, key);
      if key == callback.key {
        AppendRegroups(run, [callback.action], ActionsFor(callbacks[i + 1..], key));
        AppendRegroups(executed, [callback], CallbacksFor(callbacks[i + 1..], key));
        run := run + [callback.action];
        executed := executed + [callback];
      }
      i := i + 1;
    }
    assert callbacks[i..] == [];
  }

  lemma AppendRegroups<T>(a: seq<T>, b: seq<T>, c: seq<T>)
    ensures (a + b) + c == a + (b + c)
  {
  }

  /** The manager's own state: the grants remembered on the device, the callback
      queue, and whether `Start` has run. `invoked` records every callback action
      run, in order, and `grantEvents` every `OnGrantEvent`. */
  class IAPManager {
    var localGrants: set<string>
    var grantCallbacks: seq<Callback>
    var initialized: bool
    var invoked: seq<Action>
    var grantEvents: seq<(string, bool)>

    constructor ()
      ensures localGrants == {} && grantCallbacks == [] && !initialized
      ensures invoked == [] && grantEvents == []
    {
      localGrants := {};
      grantCallbacks := [];
      initialized := false;
      invoked := [];
      grantEvents := [];
    }

    /** `HasGrant` against the current local grants. */
    predicate Granted(store: Store, iapKey: string)
      reads this
    {
      HasGrant(localGrants, store, iapKey)
    }

    /** `WithGrant`: queue the callback until both the manager and the store are
        initialised; afterwards run it at once when the key is granted. */
    method WithGrant(apiKey: string, action: Action, store: Store)
      modifies this
      ensures !old(initialized) || !store.initializationComplete ==>
                grantCallbacks == old(grantCallbacks) + [Callback(apiKey, action)] && invoked == old(invoked)
      ensures old(initialized) && store.initializationComplete ==>
                grantCallbacks == old(grantCallbacks)
                && invoked == old(invoked) + (if old(Granted(store, apiKey)) then [action] else [])
      ensures localGrants == old(localGrants) && initialized == old(initialized)
      ensures grantEvents == old(grantEvents)
    {
      if !initialized || !store.initializationComplete {
        grantCallbacks := grantCallbacks + [Callback(apiKey, action)];
      } else if Granted(store, apiKey) {
        invoked := invoked + [action];
      }
    }

    /** `Grant(string)`: run every queued callback for `iapKey` once per queue
        entry, drop them (LINQ `Except`, which also merges equal entries that
        remain), then raise the grant event. */
    method Grant(iapKey: string, fromLocal: bool)
      modifies this
      ensures invoked == old(invoked) + ActionsFor(old(grantCallbacks), iapKey)
      ensures grantCallbacks == Except(old(grantCallbacks), CallbacksFor(old(grantCallbacks), iapKey))
      ensures grantEvents == old(grantEvents) + [(iapKey, fromLocal)]
      ensures localGrants == old(localGrants) && initialized == old(initialized)
    {
      var executed, run := RunCallbacks(grantCallbacks, iapKey);
      invoked := invoked + run;
      grantCallbacks := Except(grantCallbacks, executed);
      grantEvents := grantEvents + [(iapKey, fromLocal)];
    }

    /** `AttemptLocalGrants`: every single purchase with a saved receipt that is
        not yet granted locally becomes a local grant and is granted, in the
        order of `IAPSingles`. `saved` holds the keys with a non-empty saved
        receipt. */
    method AttemptLocalGrants(saved: set<string>)
      modifies this
      ensures localGrants == old(localGrants) + (set k | k in IAPSingles && k in saved)
      ensures var granted := Pending(IAPSingles, old(localGrants), saved);
        && grantEvents == old(grantEvents) + LocalEvents(granted)
        && invoked == old(invoked) + RunGrants(old(grantCallbacks), granted)
        && grantCallbacks == QueueAfter(old(grantCallbacks), granted)
      ensures initialized == old(initialized)
    {
      GrantSaved(IAPSingles, saved);
    }

    /** The scan of `AttemptLocalGrants` over the keys `keys`. */
    method GrantSaved(keys: seq<string>, saved: set<string>)
      modifies this
      ensures localGrants == old(localGrants) + (set k | k in keys && k in saved)
      ensures var granted := Pending(keys, old(localGrants), saved);
        && grantEvents == old(grantEvents) + LocalEvents(granted)
        && invoked == old(invoked) + RunGrants(old(grantCallbacks), granted)
        && grantCallbacks == QueueAfter(old(grantCallbacks), granted)
      ensures initialized == old(initialized)
    {
      ghost var all := Pending(keys, localGrants, saved);
      assert keys[0..] == keys && keys[..0] == [];
      var i := 0;
      while i < |keys|
        invariant 0 <= i <= |keys|
        invariant ScannedTo(keys, i, saved, old(localGrants), old(grantEvents), old(invoked), old(grantCallbacks), all)
        invariant initialized == old(initialized)
      {
        ScanKey(keys, i, saved, old(localGrants), old(grantEvents), old(invoked), old(grantCallbacks), all);
        i := i + 1;
      }
      assert keys[..i] == keys && keys[i..] == [];
    }

    /** The scan state after the first `i` keys, measured against the state it
        started from (`g0`, `e0`, `r0`, `q0`) and all the grants it makes
        (`all`): the local grants so far, and the state still to come from
        the grants pending in the remaining keys. */
    ghost predicate ScannedTo(keys: seq<string>, i: nat, saved: set<string>, g0: set<string>,
                              e0: seq<(string, bool)>, r0: seq<Action>, q0: seq<Callback>, all: seq<string>)
      reads this
      requires i <= |keys|
    {
      && localGrants == g0 + (set k | k in keys[..i] && k in saved)
      && var rest := Pending(keys[i..], localGrants, saved);
         && grantEvents + LocalEvents(rest) == e0 + LocalEvents(all)
         && invoked + RunGrants(grantCallbacks, rest) == r0 + RunGrants(q0, all)
         && QueueAfter(grantCallbacks, rest) == QueueAfter(q0, all)
    }

    /** One step of the scan: key `i` is granted if it is pending. */
    method ScanKey(keys: seq<string>, i: nat, saved: set<string>, ghost g0: set<string>,
                   ghost e0: seq<(string, bool)>, ghost r0: seq<Action>, ghost q0: seq<Callback>, ghost all: seq<string>)
      requires i < |keys| && ScannedTo(keys, i, saved, g0, e0, r0, q0, all)
      modifies this
      ensures ScannedTo(keys, i + 1, saved, g0, e0, r0, q0, all)
      ensures initialized == old(initialized)
    {
      var key := keys[i];
      PendingStep(keys, i, localGrants, saved);
      assert key in localGrants ==> localGrants + {key} == localGrants;
      GrantIfSaved(key, saved, Pending(keys[i + 1..], if key in saved then localGrants + {key} else localGrants, saved));
      assert keys[..i + 1] == keys[..i] + [key];
    }

    /** One key of `AttemptLocalGrants`: a saved purchase not yet granted
        locally becomes a local grant and is granted. `rest` stands for the
        grants still to come. */
    method GrantIfSaved(key: string, saved: set<string>, ghost rest: seq<string>)
      modifies this
      ensures localGrants == if key in saved then old(localGrants) + {key} else old(localGrants)
      ensures var p := if key !in old(localGrants) && key in saved then [key] + rest else rest;
        && grantEvents + LocalEvents(rest) == old(grantEvents) + LocalEvents(p)
        && invoked + RunGrants(grantCallbacks, rest) == old(invoked) + RunGrants(old(grantCallbacks), p)
        && QueueAfter(grantCallbacks, rest) == QueueAfter(old(grantCallbacks), p)
      ensures initialized == old(initialized)
    {
      if key !in localGrants && key in saved {
        GrantStep(grantEvents, invoked, grantCallbacks, key, rest);
        localGrants := localGrants + {key};
        Grant(key, true);
      }
    }
  }

  /** The keys `AttemptLocalGrants` grants, in order: each key of `keys` with
      a saved receipt that is not granted yet, or earlier in the scan. */
  function Pending(keys: seq<string>, granted: set<string>, saved: set<string>): seq<string>
  {
    if keys == [] then []
    else if keys[0] !in granted && keys[0] in saved then [keys[0]] + Pending(keys[1..], granted + {keys[0]}, saved)
    else Pending(keys[1..], granted, saved)
  }

  /** The grant events of local grants for `keys`. */
  function LocalEvents(keys: seq<string>): seq<(string, bool)>
  {
    if keys == [] then [] else [(keys[0], true)] + LocalEvents(keys[1..])
  }

  /** The callback actions `Grant` runs for each of `keys` in turn. */
  function RunGrants(callbacks: seq<Callback>, keys: seq<string>): seq<Action>
    decreases |keys|
  {
    if keys == [] then []
    else ActionsFor(callbacks, keys[0]) + RunGrants(Except(callbacks, CallbacksFor(callbacks, keys[0])), keys[1..])
  }

  /** The callback queue after `Grant` for each of `keys` in turn. */
  function QueueAfter(callbacks: seq<Callback>, keys: seq<string>): seq<Callback>
    decreases |keys|
  {
    if keys == [] then callbacks
    else QueueAfter(Except(callbacks, CallbacksFor(callbacks, keys[0])), keys[1..])
  }

  /** One key of the scan in `AttemptLocalGrants`. */
  lemma PendingStep(keys: seq<string>, i: nat, granted: set<string>, saved: set<string>)
    requires i < |keys|
    ensures Pending(keys[i..], granted, saved)
            == if keys[i] !in granted && keys[i] in saved
               then [keys[i]] + Pending(keys[i + 1..], granted + {keys[i]}, saved)
               else Pending(keys[i + 1..], granted, saved)
  {
    assert keys[i..][1..] == keys[i + 1..];
  }

  /** One `Grant` call moves its key from the pending grants to the state. */
  lemma GrantStep(events: seq<(string, bool)>, invoked: seq<Action>, callbacks: seq<Callback>,
                  key: string, rest: seq<string>)
    ensures events + LocalEvents([key] + rest) == (events + [(key, true)]) + LocalEvents(rest)
    ensures invoked + RunGrants(callbacks, [key] + rest)
            == (invoked + ActionsFor(callbacks, key))
               + RunGrants(Except(callbacks, CallbacksFor(callbacks, key)), rest)
    ensures QueueAfter(callbacks, [key] + rest) == QueueAfter(Except(callbacks, CallbacksFor(callbacks, key)), rest)
  {
    assert ([key] + rest)[1..] == rest;
  }

  /** Exactly the keys in `keys` with a saved receipt and no earlier grant are
      granted, each once. */
  lemma {:induction false} PendingExact(keys: seq<string>, granted: set<string>, saved: set<string>, k: string)
    ensures k in Pending(keys, granted, saved) <==> k in keys && k in saved && k !in granted
    ensures var p := Pending(keys, granted, saved);
            forall i, j :: 0 <= i < j < |p| ==> p[i] != p[j]
    ensures forall x :: x in Pending(keys, granted, saved) ==> x !in granted
    decreases |keys|
  {
    if keys != [] {
      var head := keys[0];
      if head !in granted && head in saved {
        PendingExact(keys[1..], granted + {head}, saved, k);
        PendingExact(keys[1..], granted + {head}, saved, head);
      } else {
        PendingExact(keys[1..], granted, saved, k);
      }
      assert keys == [head] + keys[1..];
    }
  }

  /** One step of the scan over the callback queue. */
  lemma QueueStep(callbacks: seq<Callback>, i: nat, key: string)
    requires i < |callbacks|
    ensures CallbacksFor(callbacks[i..], key)
            == (if callbacks[i].key == key then [callbacks[i]] else []) + CallbacksFor(callbacks[i + 1..], key)
    ensures ActionsFor(callbacks[i..], key)
            == (if callbacks[i].key == key then [callbacks[i].action] else []) + ActionsFor(callbacks[i + 1..], key)
  {
    assert callbacks[i..][1..] == callbacks[i + 1..];
  }

  /** The executed callbacks are exactly the queue entries for the key. */
  lemma {:induction false} CallbacksForMembers(callbacks: seq<Callback>, key: string, c: Callback)
    ensures c in CallbacksFor(callbacks, key) <==> c in callbacks && c.key == key
  {
    if callbacks != [] {
      CallbacksForMembers(callbacks[1..], key, c);
      assert callbacks == [callbacks[0]] + callbacks[1..];
    }
  }

  /** After a grant the queue keeps exactly the entries waiting for other keys,
      each once. */
  lemma GrantKeepsOthers(callbacks: seq<Callback>, key: string, c: Callback)
    ensures c in Except(callbacks, CallbacksFor(callbacks, key)) <==> c in callbacks && c.key != key
    ensures var rest := Except(callbacks, CallbacksFor(callbacks, key));
            forall i, j :: 0 <= i < j < |rest| ==> rest[i] != rest[j]
  {
    CallbacksForMembers(callbacks, key, c);
  }

  /** Every queue entry waiting for the granted key is run: the number of runs is
      the number of such entries. */
  lemma {:induction false} GrantRunsEachMatch(callbacks: seq<Callback>, key: string)
    ensures |ActionsFor(callbacks, key)| == |CallbacksFor(callbacks, key)|
    ensures forall i :: 0 <= i < |ActionsFor(callbacks, key)| ==>
              ActionsFor(callbacks, key)[i] == CallbacksFor(callbacks, key)[i].action
  {
    if callbacks != [] {
      var tail := callbacks[1..];
      GrantRunsEachMatch(tail, key);
      var runs, entries := ActionsFor(tail, key), CallbacksFor(tail, key);
      if callbacks[0].key == key {
        assert ActionsFor(callbacks, key) == [callbacks[0].action] + runs;
        assert CallbacksFor(callbacks, key) == [callbacks[0]] + entries;
        forall i | 0 < i < |runs| + 1
          ensures ([callbacks[0].action] + runs)[i] == ([callbacks[0]] + entries)[i].action
        {
          assert runs[i - 1] == entries[i - 1].action;
        }
      } else {
        assert ActionsFor(callbacks, key) == runs;
        assert CallbacksFor(callbacks, key) == entries;
      }
    }
  }
}
