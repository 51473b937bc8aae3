/** Context triggers with a cooldown: when a registered agent fires. */
module ContextTriggers {
  import opened Text

  datatype Trigger = Trigger(origin: Option<string>, appCategory: string, objectType: Option<string>, cooldownSeconds: int)

  datatype Agent = Agent(id: string, enabled: bool, trigger: Option<Trigger>, lastTriggeredMs: Option<int>)

  datatype Context = Context(domain: Option<string>, appCategory: string, objectType: string)

  /** Host of an https origin: what stands between the scheme and the first slash. */
  function HostOf(origin: string): string {
    var rest := if |origin| >= 8 && origin[..8] == "https://" then origin[8..] else origin;
    Split(rest, '/')[0]
  }

  /** The origin's host decides when both sides name one; otherwise the application category. */
  predicate Selects(t: Trigger, c: Context) {
    && (if t.origin.Some? && c.domain.Some? then HostOf(t.origin.value) == c.domain.value else t.appCategory == c.appCategory)
    && (t.objectType.Some? ==> t.objectType.value == c.objectType)
  }

  /** The text up to the first slash. */
  ghost predicate UpToSlash(s: string, head: string) {
    exists tail :: s == head + tail && '/' !in head && (tail == "" || tail[0] == '/')
  }

  lemma HeadGrows(s: string, head: string)
    requires s != "" && s[0] != '/'
    ensures UpToSlash(s, head) <==> head != "" && head[0] == s[0] && UpToSlash(s[1..], head[1..])
  {
    assert s == [s[0]] + s[1..];
    if UpToSlash(s, head) {
      var tail :| s == head + tail && '/' !in head && (tail == "" || tail[0] == '/');
      assert head != "" && s[1..] == head[1..] + tail;
    }
    if head != "" && head[0] == s[0] && UpToSlash(s[1..], head[1..]) {
      var tail :| s[1..] == head[1..] + tail && '/' !in head[1..] && (tail == "" || tail[0] == '/');
      assert head == [head[0]] + head[1..];
      assert s == head + tail;
    }
  }

  lemma {:induction false} FirstPiece(s: string, head: string)
    ensures UpToSlash(s, head) <==> head == Split(s, '/')[0]
  {
    if s == "" || s[0] == '/' {
      if head == "" { assert s == head + s; }
      assert UpToSlash(s, head) ==> head == "";
    } else {
      hide UpToSlash;
      HeadGrows(s, head);
      FirstPiece(s[1..], if head == "" then "" else head[1..]);
      assert head != "" ==> head == [head[0]] + head[1..];
    }
  }

  /** The origin is this host's: behind an https scheme, if it has one, up to the first slash. */
  ghost predicate HostIs(origin: string, host: string) {
    if "https://" <= origin then UpToSlash(origin[8..], host) else UpToSlash(origin, host)
  }

  /** A context selects a trigger exactly when it is on the host of the trigger's origin, or, if the
      one names no origin or the other no domain, of its application category; and about the kind of
      object the trigger names, if it names one. */
  lemma SelectsExactly(t: Trigger, c: Context)
    ensures Selects(t, c) <==>
      && (t.origin.Some? && c.domain.Some? ==> HostIs(t.origin.value, c.domain.value))
      && (t.origin.None? || c.domain.None? ==> t.appCategory == c.appCategory)
      && (t.objectType == None || t.objectType == Some(c.objectType))
  {
    if t.origin.Some? && c.domain.Some? {
      var origin := t.origin.value;
      FirstPiece(origin, c.domain.value);
      if |origin| >= 8 { FirstPiece(origin[8..], c.domain.value); }
      hide UpToSlash, Split;
      assert "https://" <= origin <==> |origin| >= 8 && origin[..8] == "https://";
    }
  }

  predicate Cooled(a: Agent, now: int)
    requires a.trigger.Some?
  { a.lastTriggeredMs.Some? ==> now - a.lastTriggeredMs.value >= a.trigger.value.cooldownSeconds * 1000 }

  predicate Fires(a: Agent, c: Context, now: int) { a.enabled && a.trigger.Some? && Selects(a.trigger.value, c) && Cooled(a, now) }

  function Stamped(a: Agent, c: Context, now: int, stamp: int): Agent {
    if Fires(a, c, now) then a.(lastTriggeredMs := Some(stamp)) else a
  }

  function Firing(agents: seq<Agent>, c: Context, now: int): seq<string> {
    if agents == [] then []
    else Firing(agents[..|agents| - 1], c, now) + if Fires(agents[|agents| - 1], c, now) then [agents[|agents| - 1].id] else []
  }

  /** The registered agents, in registration order. */
  class TriggerBoard {
    var agents: seq<Agent>

    constructor (agents: seq<Agent>)
      ensures this.agents == agents
    { this.agents := agents; }

    /** `handleContext`: `now` is the clock at the start, `clock(k)` when agent k is stamped. */
    method HandleContext(c: Context, now: int, clock: nat -> int) returns (firings: seq<string>)
      modifies this
      ensures firings == Firing(old(agents), c, now)
      ensures agents == seq(|old(agents)|, k requires 0 <= k < |old(agents)| => Stamped(old(agents)[k], c, now, clock(k)))
    {
      hide Selects;
      firings := [];
      var before := agents;
      var i := 0;
      while i < |before|
        invariant i <= |before| == |agents| && firings == Firing(before[..i], c, now)
        invariant forall k :: 0 <= k < i ==> agents[k] == Stamped(before[k], c, now, clock(k))
        invariant forall k :: i <= k < |before| ==> agents[k] == before[k]
      {
        assert before[..i + 1][..i] == before[..i];
        var agent := agents[i];
        i := i + 1;
        if !agent.enabled { continue; }
        if agent.trigger.None? { continue; }
        if !Selects(agent.trigger.value, c) { continue; }
        if agent.lastTriggeredMs.Some? && now - agent.lastTriggeredMs.value < agent.trigger.value.cooldownSeconds * 1000 { continue; }
        agents := agents[i - 1 := agent.(lastTriggeredMs := Some(clock(i - 1)))];
        firings := firings + [agent.id];
      }
      assert before[..|before|] == before;
    }
  }

  // ---- one agent over a stream of observations ----

  datatype Observation = Observation(context: Context, now: int, stamp: int)

  /** The clock never runs backwards. */
  ghost predicate Monotone(os: seq<Observation>) {
    (forall k :: 0 <= k < |os| ==> os[k].now <= os[k].stamp) && (forall j, k :: 0 <= j < k < |os| ==> os[j].stamp <= os[k].now)
  }

  function After(a: Agent, os: seq<Observation>, n: nat): Agent
    requires n <= |os|
  { if n == 0 then a else Stamped(After(a, os, n - 1), os[n - 1].context, os[n - 1].now, os[n - 1].stamp) }

  predicate FiresAt(a: Agent, os: seq<Observation>, k: nat)
    requires k < |os|
  { Fires(After(a, os, k), os[k].context, os[k].now) }

  /** The latest firing before n, as the agent remembers it. */
  ghost predicate LatestFiring(a: Agent, os: seq<Observation>, n: nat, j: nat) {
    j < n <= |os| && FiresAt(a, os, j) && forall k: nat :: j < k < n ==> !FiresAt(a, os, k)
  }

  lemma {:induction false} Remembers(a: Agent, os: seq<Observation>, n: nat)
    requires n <= |os|
    ensures var b := After(a, os, n); b.enabled == a.enabled && b.trigger == a.trigger
    ensures (exists j: nat :: LatestFiring(a, os, n, j) && After(a, os, n).lastTriggeredMs == Some(os[j].stamp))
         || ((forall k: nat :: k < n ==> !FiresAt(a, os, k)) && After(a, os, n).lastTriggeredMs == a.lastTriggeredMs)
  {
    hide Selects, Cooled;
    if n > 0 {
      Remembers(a, os, n - 1);
      if FiresAt(a, os, n - 1) {
        assert LatestFiring(a, os, n, n - 1);
      } else if j: nat :| LatestFiring(a, os, n - 1, j) && After(a, os, n - 1).lastTriggeredMs == Some(os[j].stamp) {
        assert LatestFiring(a, os, n, j);
      }
    }
  }

  /** Over any stream of observations, an agent that has not been triggered before fires at an
      observation exactly when it is enabled, its trigger selects the context, and its last firing,
      if any, lies at least the cooldown back. */
  lemma FiresExactly(a: Agent, os: seq<Observation>, n: nat)
    requires n < |os| && a.trigger.Some? && a.lastTriggeredMs.None?
    ensures FiresAt(a, os, n) <==>
      a.enabled && Selects(a.trigger.value, os[n].context)
      && forall j: nat :: LatestFiring(a, os, n, j) ==> os[n].now - os[j].stamp >= a.trigger.value.cooldownSeconds * 1000
  {
    hide Selects;
    Remembers(a, os, n);
    if j: nat :| LatestFiring(a, os, n, j) && After(a, os, n).lastTriggeredMs == Some(os[j].stamp) {
      forall k: nat | LatestFiring(a, os, n, k) ensures k == j { }
    }
  }

  /** So any two firings of one agent are at least its cooldown apart. */
  lemma CooldownHolds(a: Agent, os: seq<Observation>, i: nat, n: nat)
    requires i < n < |os| && Monotone(os) && a.trigger.Some? && FiresAt(a, os, i) && FiresAt(a, os, n)
    ensures os[n].now - os[i].stamp >= a.trigger.value.cooldownSeconds * 1000
  {
    hide Selects;
    Remembers(a, os, n);
    var j: nat :| LatestFiring(a, os, n, j) && After(a, os, n).lastTriggeredMs == Some(os[j].stamp);
    assert i <= j;
    assert i < j ==> os[i].stamp <= os[j].now <= os[j].stamp;
  }
}
