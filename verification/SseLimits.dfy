/**
 * Concurrent-stream caps for server-sent events. Acquiring takes a global permit and then
 * a per-IP slot; releasing gives back the slot and then the permit; the two halves are
 * separate steps, so any number of acquires and releases interleave.
 */
module SseLimits {
  import opened Bytes
  import opened Net

  type Task = nat

  /** `globalCap` is none when the cap is disabled; `perIpCap` is zero when disabled. */
  datatype Caps = Caps(globalCap: Option<nat>, perIpCap: nat)

  function Count(perIp: map<Ip, nat>, ip: Ip): nat {
    if ip in perIp then perIp[ip] else 0
  }

  /** The per-IP half of an acquire: the entry is created first, then compared with the cap, then raised. */
  function Entered(perIp: map<Ip, nat>, ip: Ip, cap: nat): (map<Ip, nat>, bool) {
    if cap == 0 then (perIp, true)
    else if Count(perIp, ip) >= cap then (perIp[ip := Count(perIp, ip)], false)
    else (perIp[ip := Count(perIp, ip) + 1], true)
  }

  function SaturatingPred(n: nat): nat {
    if n == 0 then 0 else n - 1
  }

  /** The per-IP half of a release; an entry that reaches zero is removed. */
  function Left(perIp: map<Ip, nat>, ip: Ip, cap: nat): map<Ip, nat> {
    if cap == 0 || ip !in perIp then perIp
    else if SaturatingPred(perIp[ip]) == 0 then perIp - {ip}
    else perIp[ip := SaturatingPred(perIp[ip])]
  }

  /** The shared counters, updated in place by each half step. */
  class RuntimeLimits {
    const caps: Caps
    var available: nat
    var perIp: map<Ip, nat>

    constructor (caps: Caps)
      ensures this.caps == caps && perIp == map[]
      ensures available == if caps.globalCap.Some? then caps.globalCap.value else 0
    {
      this.caps := caps;
      available := if caps.globalCap.Some? then caps.globalCap.value else 0;
      perIp := map[];
    }

    method TakePermit() returns (ok: bool)
      modifies this`available
      ensures ok == (caps.globalCap.None? || old(available) > 0)
      ensures available == if caps.globalCap.Some? && ok then old(available) - 1 else old(available)
    {
      if caps.globalCap.None? {
        return true;
      }
      ok := available > 0;
      if ok {
        available := available - 1;
      }
    }

    method ReturnPermit()
      modifies this`available
      ensures available == if caps.globalCap.Some? then old(available) + 1 else old(available)
    {
      if caps.globalCap.Some? {
        available := available + 1;
      }
    }

    method EnterPerIp(ip: Ip) returns (ok: bool)
      modifies this`perIp
      ensures (perIp, ok) == Entered(old(perIp), ip, caps.perIpCap)
    {
      if caps.perIpCap == 0 {
        return true;
      }
      if ip !in perIp {
        perIp := perIp[ip := 0];
      }
      ok := perIp[ip] < caps.perIpCap;
      if ok {
        perIp := perIp[ip := perIp[ip] + 1];
      }
      assert perIp == old(perIp)[ip := perIp[ip]];
    }

    method LeavePerIp(ip: Ip)
      modifies this`perIp
      ensures perIp == Left(old(perIp), ip, caps.perIpCap)
    {
      if caps.perIpCap > 0 && ip in perIp {
        perIp := perIp[ip := SaturatingPred(perIp[ip])];
        if perIp[ip] == 0 {
          perIp := perIp - {ip};
        }
      }
    }

    /** Both halves of an acquire with nothing in between: a refusal leaves no trace. */
    method TryAcquire(ip: Ip) returns (ok: bool)
      modifies this
      ensures ok <==> (caps.globalCap.None? || old(available) > 0)
                      && (caps.perIpCap == 0 || Count(old(perIp), ip) < caps.perIpCap)
      ensures !ok ==> available == old(available) && perIp == old(perIp)
      ensures ok ==> perIp == if caps.perIpCap == 0 then old(perIp)
                              else old(perIp)[ip := Count(old(perIp), ip) + 1]
      ensures ok ==> available == if caps.globalCap.Some? then old(available) - 1 else old(available)
    {
      ok := TakePermit();
      if ok {
        ok := EnterPerIp(ip);
        if !ok {
          ReturnPermit();
        }
      }
    }
  }

  // ----- Interleavings --------------------------------------------------------------

  /** Where a request stands between its atomic steps; in every phase it holds a permit. */
  datatype Phase =
    | Permitted(ip: Ip)  // has the permit, not yet the per-IP slot
    | Refused(ip: Ip)    // was refused the slot, permit not yet returned
    | Live(ip: Ip)       // streaming under a guard
    | Released(ip: Ip)   // slot given back, permit not yet returned

  datatype State = State(available: nat, perIp: map<Ip, nat>, tasks: map<Task, Phase>)

  datatype Action = Begin(task: Task, ip: Ip) | Enter(task: Task) | Leave(task: Task) | Finish(task: Task)

  function Start(caps: Caps): State {
    State(if caps.globalCap.Some? then caps.globalCap.value else 0, map[], map[])
  }

  /** One atomic step of one task; a step that is not its turn changes nothing. */
  function Step(caps: Caps, s: State, a: Action): State {
    match a
    case Begin(t, ip) =>
      if t in s.tasks then s
      else if caps.globalCap.None? then s.(tasks := s.tasks[t := Permitted(ip)])
      else if s.available == 0 then s
      else s.(available := s.available - 1, tasks := s.tasks[t := Permitted(ip)])
    case Enter(t) =>
      if t !in s.tasks || !s.tasks[t].Permitted? then s
      else
        var ip := s.tasks[t].ip;
        var r := Entered(s.perIp, ip, caps.perIpCap);
        s.(perIp := r.0, tasks := s.tasks[t := if r.1 then Live(ip) else Refused(ip)])
    case Leave(t) =>
      if t !in s.tasks || !s.tasks[t].Live? then s
      else
        var ip := s.tasks[t].ip;
        s.(perIp := Left(s.perIp, ip, caps.perIpCap), tasks := s.tasks[t := Released(ip)])
    case Finish(t) =>
      if t !in s.tasks || !(s.tasks[t].Refused? || s.tasks[t].Released?) then s
      else s.(available := if caps.globalCap.Some? then s.available + 1 else s.available, tasks := s.tasks - {t})
  }

  function Run(caps: Caps, actions: seq<Action>): State {
    if actions == [] then Start(caps)
    else Step(caps, Run(caps, actions[..|actions| - 1]), actions[|actions| - 1])
  }

  /** The streams of `ip` whose guard has not begun to drop. */
  function LiveOf(tasks: map<Task, Phase>, ip: Ip): set<Task> {
    set t | t in tasks && tasks[t] == Live(ip)
  }

  predicate PermitsMatch(caps: Caps, s: State) {
    if caps.globalCap.Some? then s.available + |s.tasks| == caps.globalCap.value else s.available == 0
  }

  ghost predicate SlotsMatch(caps: Caps, s: State) {
    if caps.perIpCap == 0 then s.perIp == map[]
    else
      && (forall ip :: Count(s.perIp, ip) == |LiveOf(s.tasks, ip)|)
      && (forall ip :: ip in s.perIp ==> 0 < s.perIp[ip] <= caps.perIpCap)
  }

  lemma LiveAdd(tasks: map<Task, Phase>, t: Task, p: Phase, ip: Ip)
    requires t !in tasks || tasks[t] != Live(ip)
    ensures |LiveOf(tasks[t := p], ip)| == |LiveOf(tasks, ip)| + if p == Live(ip) then 1 else 0
  {
    assert LiveOf(tasks[t := p], ip) == LiveOf(tasks, ip) + if p == Live(ip) then {t} else {};
  }

  lemma LiveRemove(tasks: map<Task, Phase>, t: Task, p: Phase, ip: Ip)
    requires t in tasks && tasks[t] == Live(ip) && p != Live(ip)
    ensures |LiveOf(tasks[t := p], ip)| == |LiveOf(tasks, ip)| - 1
  {
    assert LiveOf(tasks, ip) == LiveOf(tasks[t := p], ip) + {t};
  }

  lemma TaskSet(tasks: map<Task, Phase>, t: Task, p: Phase)
    ensures |tasks[t := p]| == |tasks| + if t in tasks then 0 else 1
  {
    assert tasks[t := p].Keys == tasks.Keys + {t};
  }

  lemma TaskGone(tasks: map<Task, Phase>, t: Task)
    requires t in tasks
    ensures |tasks - {t}| == |tasks| - 1
  {
    assert tasks.Keys == (tasks - {t}).Keys + {t};
  }

  lemma PermitsKept(caps: Caps, s: State, a: Action)
    requires PermitsMatch(caps, s)
    ensures PermitsMatch(caps, Step(caps, s, a))
  {
    var s' := Step(caps, s, a);
    if s' != s {
      if a.Finish? {
        TaskGone(s.tasks, a.task);
      } else {
        TaskSet(s.tasks, a.task, s'.tasks[a.task]);
      }
    }
  }

  lemma SlotsKept(caps: Caps, s: State, a: Action)
    requires SlotsMatch(caps, s)
    ensures SlotsMatch(caps, Step(caps, s, a))
  {
    var s' := Step(caps, s, a);
    if s' != s && caps.perIpCap > 0 {
      forall ip ensures Count(s'.perIp, ip) == |LiveOf(s'.tasks, ip)| {
        match a
        case Begin(t, x) => LiveAdd(s.tasks, t, Permitted(x), ip);
        case Enter(t) => LiveAdd(s.tasks, t, s'.tasks[t], ip);
        case Leave(t) =>
          if s.tasks[t].ip == ip {
            LiveRemove(s.tasks, t, s'.tasks[t], ip);
          } else {
            LiveAdd(s.tasks, t, s'.tasks[t], ip);
          }
        case Finish(t) =>
          assert LiveOf(s'.tasks, ip) == LiveOf(s.tasks, ip);
      }
    }
  }

  /** Every interleaving keeps both ledgers. */
  lemma {:induction false} LedgersMatch(caps: Caps, actions: seq<Action>)
    ensures PermitsMatch(caps, Run(caps, actions))
    ensures SlotsMatch(caps, Run(caps, actions))
  {
    if actions == [] {
      forall ip ensures LiveOf(map[], ip) == {} {
      }
    } else {
      LedgersMatch(caps, actions[..|actions| - 1]);
      PermitsKept(caps, Run(caps, actions[..|actions| - 1]), actions[|actions| - 1]);
      SlotsKept(caps, Run(caps, actions[..|actions| - 1]), actions[|actions| - 1]);
    }
  }

  /** All streams under a guard. */
  function AllLive(tasks: map<Task, Phase>): set<Task> {
    set t | t in tasks && tasks[t].Live?
  }

  /** Live streams exceed neither cap, under every interleaving. */
  lemma CapsHold(caps: Caps, actions: seq<Action>, ip: Ip)
    ensures var tasks := Run(caps, actions).tasks;
            && (caps.globalCap.Some? ==> |AllLive(tasks)| <= caps.globalCap.value)
            && (caps.perIpCap > 0 ==> |LiveOf(tasks, ip)| <= caps.perIpCap)
  {
    LedgersMatch(caps, actions);
    var s := Run(caps, actions);
    SubsetSize(AllLive(s.tasks), s.tasks.Keys);
    assert caps.perIpCap > 0 ==> Count(s.perIp, ip) == |LiveOf(s.tasks, ip)|;
  }

  lemma {:induction false} SubsetSize(a: set<Task>, b: set<Task>)
    requires a <= b
    ensures |a| <= |b|
  {
    assert b == a + (b - a);
  }

  /** A guard that drops always finds its slot counted, so the saturating subtraction is exact. */
  lemma ReleaseNeverSaturates(caps: Caps, actions: seq<Action>, t: Task)
    requires caps.perIpCap > 0
    requires t in Run(caps, actions).tasks && Run(caps, actions).tasks[t].Live?
    ensures var s := Run(caps, actions);
            s.tasks[t].ip in s.perIp && s.perIp[s.tasks[t].ip] > 0
  {
    LedgersMatch(caps, actions);
    var s := Run(caps, actions);
    assert t in LiveOf(s.tasks, s.tasks[t].ip);
    assert Count(s.perIp, s.tasks[t].ip) == |LiveOf(s.tasks, s.tasks[t].ip)|;
  }

  /** A request in its per-IP step is refused exactly when its IP already has `perIpCap` live streams. */
  lemma RefusedExactly(caps: Caps, actions: seq<Action>, t: Task)
    requires t in Run(caps, actions).tasks && Run(caps, actions).tasks[t].Permitted?
    ensures var s := Run(caps, actions);
            var next := Step(caps, s, Enter(t)).tasks[t];
            next.Refused? <==> caps.perIpCap > 0 && |LiveOf(s.tasks, s.tasks[t].ip)| == caps.perIpCap
  {
    LedgersMatch(caps, actions);
    var s := Run(caps, actions);
    var ip := s.tasks[t].ip;
    assert caps.perIpCap > 0 ==> Count(s.perIp, ip) == |LiveOf(s.tasks, ip)|;
  }

  /** A request gets its permit exactly when fewer than the global cap are under way. */
  lemma {:induction false} PermittedExactly(caps: Caps, actions: seq<Action>, t: Task, ip: Ip, s: State, next: State)
    requires s == Run(caps, actions) && next == Step(caps, s, Begin(t, ip)) && t !in s.tasks
    ensures next.tasks == s.tasks[t := Permitted(ip)] || next == s
    ensures t in next.tasks <==> caps.globalCap.None? || |s.tasks| < caps.globalCap.value
  {
    LedgersMatch(caps, actions);
  }

  /** From its permit on, a request moves one phase at a time, and none is left holding anything. */
  lemma {:induction false} PhasesInOrder(caps: Caps, s: State, t: Task, phase: Phase)
    requires t in s.tasks && phase == s.tasks[t]
    ensures phase.Permitted? ==> Step(caps, s, Enter(t)).tasks == s.tasks[t := Live(phase.ip)]
                                 || Step(caps, s, Enter(t)).tasks == s.tasks[t := Refused(phase.ip)]
    ensures phase.Live? ==> Step(caps, s, Leave(t)).tasks == s.tasks[t := Released(phase.ip)]
    ensures phase.Refused? || phase.Released? ==> Step(caps, s, Finish(t)).tasks == s.tasks - {t}
  {
  }

  /**
   * The counters are a function of the requests under way: two histories that leave the
   * same requests leave the same counters. In particular a refused acquire, once it has
   * returned its permit, and a finished stream leave no trace, and idle means empty.
   */
  lemma CountersAreDetermined(caps: Caps, a: seq<Action>, b: seq<Action>)
    requires Run(caps, a).tasks == Run(caps, b).tasks
    ensures Run(caps, a) == Run(caps, b)
  {
    LedgersMatch(caps, a);
    LedgersMatch(caps, b);
    var s, s' := Run(caps, a), Run(caps, b);
    if caps.perIpCap > 0 {
      forall ip ensures Count(s.perIp, ip) == Count(s'.perIp, ip) {
      }
      forall ip ensures ip in s.perIp <==> ip in s'.perIp {
        assert Count(s.perIp, ip) == Count(s'.perIp, ip);
      }
      forall ip | ip in s.perIp ensures s.perIp[ip] == s'.perIp[ip] {
        assert Count(s.perIp, ip) == Count(s'.perIp, ip);
      }
      assert s.perIp == s'.perIp;
    }
  }

  lemma IdleMeansEmpty(caps: Caps, actions: seq<Action>)
    requires Run(caps, actions).tasks == map[]
    ensures Run(caps, actions) == Start(caps)
  {
    CountersAreDetermined(caps, actions, []);
  }
}
