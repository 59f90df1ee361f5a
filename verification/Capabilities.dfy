/**
 * Capability dependencies of backend/src/ai_employee/domain/connections.py, for any dependency table
 * over a finite enumeration: closure, cycle detection, enable and disable.
 */
module Capabilities {
  import opened Graphs
  import opened Prelude

  type Capability = nat

  /** The dependency table as a function: no entry means no dependencies. */
  type Dependencies = Capability -> seq<Capability>

  datatype Conflict = Conflict

  predicate NothingBad(c: Capability) { false }

  /** The table mentions only members of the enumeration. */
  ghost predicate Known(next: Dependencies, all: set<Capability>) {
    forall a, d :: a in all && d in next(a) ==> d in all
  }

  ghost predicate Acyclic(next: Dependencies, all: set<Capability>) {
    forall a :: a in all ==> !Reaches(next, a, a)
  }

  /** Every enabled capability has all its dependencies enabled. */
  ghost predicate Closed(next: Dependencies, enabled: set<Capability>) { Known(next, enabled) }

  /** Walks never leave a closed set. */
  lemma {:induction false} WalkStaysInside(next: Dependencies, s: set<Capability>, p: seq<Capability>)
    requires Closed(next, s) && Walk(next, p) && p[0] in s
    ensures p[|p| - 1] in s
    decreases |p|
  {
    if |p| > 1 {
      WalkTail(next, p, 1);
      assert p[0 + 1] in next(p[0]);
      WalkStaysInside(next, s, p[1..]);
    }
  }

  lemma ReachableIsInside(next: Dependencies, s: set<Capability>, a: Capability, b: Capability)
    requires Closed(next, s) && a in s && Reaches(next, a, b)
    ensures b in s
  {
    var p :| From(next, a, p) && |p| > 1 && p[|p| - 1] == b;
    WalkStaysInside(next, s, p);
  }

  /**
   * `_dependency_closure`: it fails exactly when a walk returns to the path it is on, and otherwise
   * collects exactly the capabilities reachable by at least one edge.
   */
  method DependencyClosure(next: Dependencies, all: set<Capability>, c: Capability, visiting: set<Capability>)
    returns (r: Result<set<Capability>, Conflict>)
    requires Known(next, all) && c in all && visiting <= all
    ensures r.Err? <==> Stuck(next, NothingBad, visiting, c)
    ensures r.Ok? ==> forall x :: x in r.value <==> Reaches(next, c, x)
    decreases |all - visiting|
  {
    hide Stuck, Reaches;
    StuckStep(next, NothingBad, visiting, c);
    if c in visiting {
      return Err(Conflict);
    }
    var path := visiting + {c};
    assert all - path < all - visiting;
    SmallerSet(all - path, all - visiting);
    var closure := {};
    for i := 0 to |next(c)|
      invariant forall j :: 0 <= j < i ==> !Stuck(next, NothingBad, path, next(c)[j])
      invariant forall x :: x in closure <==> exists j ::
        0 <= j < i && (x == next(c)[j] || Reaches(next, next(c)[j], x))
    {
      closure := closure + {next(c)[i]};
      var deeper :- DependencyClosure(next, all, next(c)[i], path);
      closure := closure + deeper;
    }
    SuccessorsReachAll(next, c, closure);
    r := Ok(closure);
  }

  lemma SuccessorsReachAll(next: Dependencies, c: Capability, closure: set<Capability>)
    requires forall x :: x in closure <==>
      exists j :: 0 <= j < |next(c)| && (x == next(c)[j] || Reaches(next, next(c)[j], x))
    ensures forall x :: x in closure <==> Reaches(next, c, x)
  {
    hide Reaches;
    forall x
      ensures x in closure <==> Reaches(next, c, x)
    {
      ReachesStep(next, c, x);
      if x in closure {
        var j :| 0 <= j < |next(c)| && (x == next(c)[j] || Reaches(next, next(c)[j], x));
        assert next(c)[j] in next(c);
      }
      if d :| d in next(c) && (d == x || Reaches(next, d, x)) {
        var j :| 0 <= j < |next(c)| && next(c)[j] == d;
      }
    }
  }

  /** From the top, the closure exists exactly when no cycle is reachable. */
  lemma ClosureExistsIffNoCycleAhead(next: Dependencies, c: Capability)
    ensures Stuck(next, NothingBad, {}, c) <==> exists x :: (x == c || Reaches(next, c, x)) && Reaches(next, x, x)
  {
    StuckIffCycle(next, NothingBad, c);
  }

  lemma StuckIffCyclic(next: Dependencies, all: set<Capability>)
    requires Known(next, all)
    ensures (forall c :: c in all ==> !Stuck(next, NothingBad, {}, c)) <==> Acyclic(next, all)
  {
    forall c | c in all
      ensures Stuck(next, NothingBad, {}, c) ==> !Acyclic(next, all)
      ensures Reaches(next, c, c) ==> Stuck(next, NothingBad, {}, c)
    {
      ClosureExistsIffNoCycleAhead(next, c);
      if Stuck(next, NothingBad, {}, c) {
        var x :| (x == c || Reaches(next, c, x)) && Reaches(next, x, x);
        if x != c {
          ReachableIsInside(next, all, c, x);
        }
      }
    }
  }

  /** `_validate_dependency_graph`. */
  method ValidateGraph(next: Dependencies, all: set<Capability>) returns (valid: bool)
    ensures valid <==> Known(next, all) && Acyclic(next, all)
  {
    var rest := all;
    while rest != {}
      invariant rest <= all
      invariant forall a, d :: a in all - rest && d in next(a) ==> d in all
      decreases |rest|
    {
      var c :| c in rest;
      if exists i :: 0 <= i < |next(c)| && next(c)[i] !in all {
        return false;
      }
      rest := rest - {c};
    }
    assert Known(next, all);
    StuckIffCyclic(next, all);
    rest := all;
    while rest != {}
      invariant rest <= all
      invariant forall c :: c in all - rest ==> !Stuck(next, NothingBad, {}, c)
      decreases |rest|
    {
      var c :| c in rest;
      var closure := DependencyClosure(next, all, c, {});
      if closure.Err? {
        return false;
      }
      rest := rest - {c};
    }
    valid := true;
  }

  /** `_validate_enabled_capabilities`: the current set must already be closed. */
  method ValidateEnabled(next: Dependencies, all: set<Capability>, enabled: set<Capability>) returns (valid: bool)
    requires Known(next, all) && Acyclic(next, all)
    ensures valid <==> enabled <= all && Closed(next, enabled)
  {
    if !(enabled <= all) {
      return false;
    }
    StuckIffCyclic(next, all);
    var rest := enabled;
    while rest != {}
      invariant rest <= enabled
      invariant forall a, d :: a in enabled - rest && d in next(a) ==> d in enabled
      decreases |rest|
    {
      var c :| c in rest;
      var closure := DependencyClosure(next, all, c, {});
      forall d | d in next(c)
        ensures Reaches(next, c, d)
      {
        ReachesStep(next, c, d);
      }
      if !(closure.value <= enabled) {
        if Closed(next, enabled) {
          var x :| x in closure.value && x !in enabled;
          ReachableIsInside(next, enabled, c, x);
        }
        return false;
      }
      rest := rest - {c};
    }
    valid := true;
  }

  /** The request itself, or something it needs. */
  ghost predicate Serves(next: Dependencies, requested: Capability, x: Capability) {
    x == requested || Reaches(next, requested, x)
  }

  /** `validate_capability_enable`: the least closed set above the current one that has the request. */
  method Enable(next: Dependencies, all: set<Capability>, requested: Capability, enabled: set<Capability>)
    returns (r: Result<set<Capability>, Conflict>)
    ensures r.Ok? <==>
      requested in all && Known(next, all) && Acyclic(next, all) && enabled <= all && Closed(next, enabled)
    ensures r.Ok? ==> IsLeastClosed(next, enabled + {requested}, r.value) && r.value <= all
    ensures r.Ok? ==> forall x :: x in r.value <==> x in enabled || Serves(next, requested, x)
  {
    if requested !in all {
      return Err(Conflict);
    }
    var graphValid := ValidateGraph(next, all);
    if !graphValid {
      return Err(Conflict);
    }
    var enabledValid := ValidateEnabled(next, all, enabled);
    if !enabledValid {
      return Err(Conflict);
    }
    StuckIffCyclic(next, all);
    var dependencies := DependencyClosure(next, all, requested, {});
    r := Ok(enabled + dependencies.value + {requested});
    ClosureIsLeast(next, all, requested, enabled, dependencies.value);
  }

  ghost predicate IsLeastClosed(next: Dependencies, wanted: set<Capability>, s: set<Capability>) {
    && wanted <= s && Closed(next, s)
    && forall t :: wanted <= t && Closed(next, t) ==> s <= t
  }

  lemma ClosureIsLeast(next: Dependencies, all: set<Capability>, c: Capability, enabled: set<Capability>,
    closure: set<Capability>)
    requires Known(next, all) && c in all && enabled <= all && Closed(next, enabled)
    requires forall x :: x in closure <==> Reaches(next, c, x)
    ensures IsLeastClosed(next, enabled + {c}, enabled + closure + {c}) && enabled + closure + {c} <= all
  {
    var s := enabled + closure + {c};
    forall a, d | a in s && d in next(a)
      ensures d in s
    {
      if a !in enabled {
        ReachesFurther(next, c, a, d);
      }
    }
    forall t, x | enabled + {c} <= t && Closed(next, t) && x in closure
      ensures x in t
    {
      assert c in t;
      ReachableIsInside(next, t, c, x);
    }
    forall x | x in closure
      ensures x in all
    {
      ReachableIsInside(next, all, c, x);
    }
  }

  /** Nothing else in the set needs the request. */
  ghost predicate Unneeded(next: Dependencies, requested: Capability, enabled: set<Capability>) {
    forall a :: a in enabled - {requested} ==> !Reaches(next, a, requested)
  }

  /** What remains of a closed set is closed exactly when nothing in it needs what was taken out. */
  lemma UnneededIffClosed(next: Dependencies, requested: Capability, enabled: set<Capability>)
    requires Closed(next, enabled)
    ensures Unneeded(next, requested, enabled) <==> Closed(next, enabled - {requested})
  {
    var remaining := enabled - {requested};
    if Unneeded(next, requested, enabled) {
      forall a, d | a in remaining && d in next(a)
        ensures d in remaining
      {
        ReachesStep(next, a, d);
      }
    }
    if Closed(next, remaining) {
      forall a | a in remaining
        ensures !Reaches(next, a, requested)
      {
        if Reaches(next, a, requested) {
          ReachableIsInside(next, remaining, a, requested);
        }
      }
    }
  }

  /** `validate_capability_disable`: allowed exactly when nothing that remains needs the request. */
  method Disable(next: Dependencies, all: set<Capability>, requested: Capability, enabled: set<Capability>)
    returns (r: Result<set<Capability>, Conflict>)
    ensures r.Ok? <==> (
      && requested in all && Known(next, all) && Acyclic(next, all)
      && enabled <= all && Closed(next, enabled) && Unneeded(next, requested, enabled))
    ensures r.Ok? ==> r.value == enabled - {requested} && Closed(next, r.value)
  {
    if requested !in all {
      return Err(Conflict);
    }
    var graphValid := ValidateGraph(next, all);
    if !graphValid {
      return Err(Conflict);
    }
    var enabledValid := ValidateEnabled(next, all, enabled);
    if !enabledValid {
      return Err(Conflict);
    }
    StuckIffCyclic(next, all);
    var remaining := enabled - {requested};
    var rest := remaining;
    while rest != {}
      invariant rest <= remaining
      invariant forall c :: c in remaining - rest ==> !Reaches(next, c, requested)
      decreases |rest|
    {
      var c :| c in rest;
      var closure := DependencyClosure(next, all, c, {});
      if requested in closure.value {
        return Err(Conflict);
      }
      rest := rest - {c};
    }
    UnneededIffClosed(next, requested, enabled);
    r := Ok(remaining);
  }

  // ---------------------------------------------------------------- whole histories

  datatype Request = EnableOne(c: Capability) | DisableOne(c: Capability)

  /** The request is known, the table is valid and, when disabling, nothing else needs it. */
  ghost predicate Accepted(next: Dependencies, all: set<Capability>, request: Request, before: set<Capability>) {
    && request.c in all && Known(next, all) && Acyclic(next, all)
    && (request.DisableOne? ==> Unneeded(next, request.c, before))
  }

  /** What one request makes of the enabled set; a refusal changes nothing. */
  ghost predicate Step(next: Dependencies, all: set<Capability>, request: Request,
                       before: set<Capability>, after: set<Capability>)
  {
    if !Accepted(next, all, request, before) then after == before
    else if request.EnableOne? then forall x :: x in after <==> x in before || Serves(next, request.c, x)
    else after == before - {request.c}
  }

  ghost predicate History(next: Dependencies, all: set<Capability>, requests: seq<Request>,
                          states: seq<set<Capability>>)
  {
    && |states| == |requests| + 1 && states[0] == {}
    && forall i :: 0 <= i < |requests| ==> Step(next, all, requests[i], states[i], states[i + 1])
  }

  /** Serves each request by the operation it names and keeps the set on a refusal. */
  method Serve(next: Dependencies, all: set<Capability>, requests: seq<Request>) returns (states: seq<set<Capability>>)
    ensures History(next, all, requests, states)
    ensures forall i :: 0 <= i < |states| ==> states[i] <= all && Closed(next, states[i])
  {
    hide Reaches, Acyclic, IsLeastClosed;
    var enabled := {};
    states := [enabled];
    for i := 0 to |requests|
      invariant |states| == i + 1 && states[0] == {} && states[i] == enabled
      invariant forall j :: 0 <= j <= i ==> states[j] <= all && Closed(next, states[j])
      invariant forall j :: 0 <= j < i ==> Step(next, all, requests[j], states[j], states[j + 1])
    {
      var served := ServeOne(next, all, requests[i], enabled);
      enabled := served;
      states := states + [enabled];
    }
  }

  method ServeOne(next: Dependencies, all: set<Capability>, request: Request, enabled: set<Capability>)
    returns (after: set<Capability>)
    requires enabled <= all && Closed(next, enabled)
    ensures Step(next, all, request, enabled, after) && after <= all && Closed(next, after)
  {
    hide Reaches, Acyclic;
    var r;
    match request {
      case EnableOne(c) => r := Enable(next, all, c, enabled);
      case DisableOne(c) => r := Disable(next, all, c, enabled);
    }
    after := if r.Ok? then r.value else enabled;
  }

  /** An accepted request at `k` enabled `x`, and no later accepted one before `i` disabled it. */
  ghost predicate StillServes(next: Dependencies, all: set<Capability>, requests: seq<Request>,
                              states: seq<set<Capability>>, x: Capability, k: nat, i: nat)
    requires k < i <= |requests| < |states|
  {
    && requests[k].EnableOne? && Accepted(next, all, requests[k], states[k]) && Serves(next, requests[k].c, x)
    && forall j :: k < j < i ==> requests[j] == DisableOne(x) ==> !Accepted(next, all, requests[j], states[j])
  }

  /** In every history a capability is enabled exactly when some request still serves it. */
  lemma {:induction false} EnabledIffServed(next: Dependencies, all: set<Capability>, requests: seq<Request>,
                                            states: seq<set<Capability>>, i: nat, x: Capability)
    requires History(next, all, requests, states) && i <= |requests|
    ensures x in states[i] <==> exists k :: 0 <= k < i && StillServes(next, all, requests, states, x, k, i)
  {
    hide Reaches, Accepted, Serves;
    if i > 0 {
      EnabledIffServed(next, all, requests, states, i - 1, x);
      var request, before := requests[i - 1], states[i - 1];
      assert Step(next, all, request, before, states[i - 1 + 1]);
      var granted := request.EnableOne? && Accepted(next, all, request, before) && Serves(next, request.c, x);
      var taken := request == DisableOne(x) && Accepted(next, all, request, before);
      assert x in states[i] <==> (x in before && !taken) || granted;
      forall k | 0 <= k < i
        ensures StillServes(next, all, requests, states, x, k, i) <==>
          if k == i - 1 then granted else StillServes(next, all, requests, states, x, k, i - 1) && !taken
      {
      }
      if x in before && !taken {
        var k :| 0 <= k < i - 1 && StillServes(next, all, requests, states, x, k, i - 1);
        assert StillServes(next, all, requests, states, x, k, i);
      }
      if granted {
        assert StillServes(next, all, requests, states, x, i - 1, i);
      }
    }
  }

  /** The computed sets alone keep every state closed: nothing is ever enabled without what it needs. */
  lemma {:induction false} EveryStateIsClosed(next: Dependencies, all: set<Capability>, requests: seq<Request>,
                                              states: seq<set<Capability>>, i: nat)
    requires History(next, all, requests, states) && i < |states|
    ensures Closed(next, states[i])
  {
    if i > 0 {
      EveryStateIsClosed(next, all, requests, states, i - 1);
      assert Step(next, all, requests[i - 1], states[i - 1], states[i - 1 + 1]);
      StepKeepsClosed(next, all, requests[i - 1], states[i - 1], states[i]);
    }
  }

  lemma StepKeepsClosed(next: Dependencies, all: set<Capability>, request: Request,
                        before: set<Capability>, after: set<Capability>)
    requires Step(next, all, request, before, after) && Closed(next, before)
    ensures Closed(next, after)
  {
    hide Reaches, Acyclic;
    if request.DisableOne? {
      UnneededIffClosed(next, request.c, before);
    } else if Accepted(next, all, request, before) {
      forall a, d | a in after && d in next(a)
        ensures d in after
      {
        if a !in before {
          ReachesFurther(next, request.c, a, d);
        }
      }
    }
  }
}
