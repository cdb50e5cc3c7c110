/** The hook layer as the plugins use it: a hook is an enabled bit plus a
    path to the original host function. Code patching, trampolines and
    signature scanning are outside the model; a scan is reduced to whether
    it found its pattern. */
module Hooking {
  import opened Havok

  /** Arguments of the host's `hkaBlendJob` build function. */
  datatype BlendJobArgs = BlendJobArgs(job: Addr, skel: Addr, bonesOut: Addr, floatsOut: Addr,
                                       convertToModel: u8, numBones: i32, numFloats: i32)

  /** A call forwarded to an original host function. */
  datatype Call =
    | CalculateBoneModelSpace(boneIdx: int)
    | HkaBlendJobBuild(args: BlendJobArgs)

  /** `Hook<T>`: whether the redirect is active, the original function's
      (opaque) result for each call, and the calls forwarded to it so far. */
  class Hook {
    var enabled: bool
    var originalCalls: seq<Call>
    const original: Call -> Addr

    /** A freshly installed hook starts disabled. */
    constructor (host: Call -> Addr)
      ensures !enabled && originalCalls == [] && original == host
    {
      enabled := false;
      originalCalls := [];
      original := host;
    }

    /** `Enable`: idempotent, forwards nothing. */
    method Enable()
      modifies this
      ensures enabled && originalCalls == old(originalCalls)
    {
      enabled := true;
    }

    /** `Disable`: idempotent, forwards nothing. */
    method Disable()
      modifies this
      ensures !enabled && originalCalls == old(originalCalls)
    {
      enabled := false;
    }

    /** `Original`: runs the unpatched host function whatever the enabled bit. */
    method Original(call: Call) returns (r: Addr)
      modifies this
      ensures r == original(call)
      ensures originalCalls == old(originalCalls) + [call] && enabled == old(enabled)
    {
      originalCalls := originalCalls + [call];
      r := original(call);
    }
  }

  /** No hook object is registered under two names. */
  ghost predicate Distinct(hooks: seq<Hook?>)
  {
    forall i, j :: 0 <= i < j < |hooks| && hooks[i] != null ==> hooks[i] != hooks[j]
  }

  /** The hook objects of a registry. */
  ghost function Objects(hooks: seq<Hook?>): set<Hook>
  {
    set h: Hook | h in hooks
  }

  /** Position of the first scan that missed; `|found|` when none did. */
  function FirstMiss(found: seq<bool>): (k: nat)
    ensures k <= |found|
    ensures forall i :: 0 <= i < k ==> found[i]
    ensures k < |found| ==> !found[k]
  {
    if found == [] || !found[0] then 0 else 1 + FirstMiss(found[1..])
  }

  /** Position of the first unassigned hook; `|hooks|` when all are assigned. */
  function FirstNull(hooks: seq<Hook?>): (k: nat)
    ensures k <= |hooks|
    ensures forall i :: 0 <= i < k ==> hooks[i] != null
    ensures k < |hooks| ==> hooks[k] == null
    ensures k == |hooks| <==> null !in hooks
  {
    if hooks == [] || hooks[0] == null then 0 else 1 + FirstNull(hooks[1..])
  }

  /** The registration `try` block: hooks are created in order, one per
      scan; the first scan that misses throws `KeyNotFoundException`, which
      is caught, so that hook and every later one stay unassigned while the
      earlier ones remain installed (and disabled). */
  method Register(found: seq<bool>, hosts: seq<Call -> Addr>) returns (hooks: seq<Hook?>)
    requires |hosts| == |found|
    ensures |hooks| == |found| && Distinct(hooks)
    ensures FirstNull(hooks) == FirstMiss(found)
    ensures forall i :: 0 <= i < |hooks| ==> (hooks[i] != null <==> i < FirstMiss(found))
    ensures forall i :: 0 <= i < |hooks| && hooks[i] != null ==>
              fresh(hooks[i]) && !hooks[i].enabled && hooks[i].originalCalls == [] && hooks[i].original == hosts[i]
  {
    hooks := [];
    var i := 0;
    while i < |found| && found[i]
      invariant 0 <= i <= FirstMiss(found)
      invariant |hooks| == i && Distinct(hooks) && null !in hooks
      invariant forall j :: 0 <= j < i ==>
                  fresh(hooks[j]) && !hooks[j].enabled && hooks[j].originalCalls == [] && hooks[j].original == hosts[j]
    {
      var h := new Hook(hosts[i]);
      hooks := hooks + [h];
      i := i + 1;
    }
    hooks := hooks + seq(|found| - i, _ => null);
    FirstNullAt(hooks, i);
  }

  /** The first unassigned position is the one the assignments stop at. */
  lemma {:induction false} FirstNullAt(hooks: seq<Hook?>, k: nat)
    requires k <= |hooks|
    requires forall i :: 0 <= i < k ==> hooks[i] != null
    requires k < |hooks| ==> hooks[k] == null
    ensures FirstNull(hooks) == k
  {
    if k > 0 {
      FirstNullAt(hooks[1..], k - 1);
    }
  }

  /** The "pause all" checkbox body: every hook is enabled (or disabled) in
      registration order; reaching an unassigned hook throws, so the hooks
      before it have changed and the rest have not. `ok` is false when that
      exception escapes. */
  method SetAll(hooks: seq<Hook?>, on: bool) returns (ok: bool)
    requires Distinct(hooks)
    modifies Objects(hooks)
    ensures ok <==> null !in hooks
    ensures forall i :: 0 <= i < FirstNull(hooks) ==> hooks[i].enabled == on
    ensures forall i :: FirstNull(hooks) <= i < |hooks| && hooks[i] != null ==>
              hooks[i].enabled == old(hooks[i].enabled)
    ensures forall h :: h in Objects(hooks) ==> h.originalCalls == old(h.originalCalls)
  {
    var i := 0;
    while i < |hooks| && hooks[i] != null
      invariant 0 <= i <= FirstNull(hooks)
      invariant forall j :: 0 <= j < i ==> hooks[j].enabled == on
      invariant forall j :: i <= j < |hooks| && hooks[j] != null ==> hooks[j].enabled == old(hooks[j].enabled)
      invariant forall h :: h in Objects(hooks) ==> h.originalCalls == old(h.originalCalls)
    {
      if on {
        hooks[i].Enable();
      } else {
        hooks[i].Disable();
      }
      i := i + 1;
    }
    ok := i == |hooks|;
  }

  /** One "Pause X" / "Unpause X" button: a paused hook is disabled and its
      flag cleared, otherwise it is enabled and the flag set. An unassigned
      hook throws before the flag is touched (`ok` false). */
  method TogglePause(hook: Hook?, paused: bool) returns (nowPaused: bool, ok: bool)
    modifies if hook == null then {} else {hook}
    ensures ok <==> hook != null
    ensures hook == null ==> nowPaused == paused
    ensures hook != null ==> nowPaused == !paused && hook.enabled == nowPaused
    ensures hook != null ==> hook.originalCalls == old(hook.originalCalls)
  {
    if hook == null {
      return paused, false;
    }
    if paused {
      hook.Disable();
      nowPaused := false;
    } else {
      hook.Enable();
      nowPaused := true;
    }
    ok := true;
  }
}
