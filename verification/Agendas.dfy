/** Consensus agendas: the whole map built once from the chain parameters, and the lookup of a
    single agenda that must agree with it. Vote masks are sets of bit numbers. */
module Agendas {
  import opened Options

  datatype Result<+T> = Ok(value: T) | Err(error: Error)

  datatype Error = DuplicateDeployment | BadMask | BadChoices | UnknownChoice | AbstainChoice
                 | ForcedMainNet | HistoricalForced | UnknownHistorical | UnknownAgenda

  datatype Choice = Choice(id: string, isAbstain: bool, isNo: bool)

  datatype Vote = Vote(id: string, mask: set<nat>, choices: seq<Choice>)

  datatype Deployment = Deployment(vote: Vote, forcedChoice: string)

  datatype Versioned = Versioned(version: nat, deployment: Deployment)

  datatype Group = Group(version: nat, deployments: seq<Deployment>)

  datatype Params = Params(mainNet: bool, groups: seq<Group>)

  datatype Activation = Activation(height: int, hash: nat, choice: string)

  datatype Historical = Historical(id: string, activation: Activation)

  datatype State = Defined | Active | Failed

  datatype Forced = Forced(state: State, choice: string)

  datatype Agenda = Agenda(forced: Option<Forced>, historical: Option<Activation>, deployment: Option<Versioned>)

  // ------------------------------------------------------------------
  // The steps the map and the lookup share.

  /** The first choice with this id. */
  function FindChoice(choices: seq<Choice>, id: string): (c: Option<Choice>)
    ensures c.Some? ==> c.value in choices && c.value.id == id
  {
    if choices == [] then None
    else if choices[0].id == id then Some(choices[0])
    else FindChoice(choices[1..], id)
  }

  /** `determine_forced_threshold_state`. */
  function ForcedState(d: Deployment): Result<Option<Forced>>
  {
    if d.forcedChoice == "" then Ok(None)
    else
      var choice := FindChoice(d.vote.choices, d.forcedChoice);
      if choice.None? then Err(UnknownChoice)
      else if choice.value.isAbstain then Err(AbstainChoice)
      else Ok(Some(Forced(if choice.value.isNo then Failed else Active, d.forcedChoice)))
  }

  /** `deployment_agenda`. An agenda without a forced state has a deployment. */
  function DeploymentAgenda(mainNet: bool, v: Versioned): (r: Result<Agenda>)
    ensures r.Ok? ==> (r.value.forced.None? <==> r.value.deployment.Some?) && r.value.historical.None?
  {
    var forced := ForcedState(v.deployment);
    if forced.Err? then Err(forced.error)
    else if mainNet && forced.value.Some? then Err(ForcedMainNet)
    else Ok(Agenda(forced.value, None, if forced.value.None? then Some(v) else None))
  }

  /** `resolve_historical_choice`: only a choice that passed is an activation. */
  function ResolveHistorical(entry: Activation, d: Deployment): Result<Option<Activation>>
  {
    var choice := FindChoice(d.vote.choices, entry.choice);
    if choice.None? then Err(UnknownChoice)
    else if choice.value.isAbstain then Err(AbstainChoice)
    else if choice.value.isNo then Ok(None)
    else Ok(Some(Activation(entry.height, entry.hash, choice.value.id)))
  }

  /** `attach_historical`. */
  function Attach(a: Agenda, entry: Activation): Result<Agenda>
    requires a.forced.None? ==> a.deployment.Some?
  {
    if a.forced.Some? then Err(HistoricalForced)
    else
      var resolved := ResolveHistorical(entry, a.deployment.value.deployment);
      if resolved.Err? then Err(resolved.error) else Ok(a.(historical := resolved.value))
  }

  function DefaultAgenda(mainNet: bool): Agenda
  {
    Agenda(Some(Forced(if mainNet then Defined else Active, "")), None, None)
  }

  /** The deployments in the order both walks meet them. */
  function Flat(groups: seq<Group>): seq<Versioned>
  {
    if groups == [] then []
    else Flat(groups[..|groups| - 1]) + Of(groups[|groups| - 1], |groups[|groups| - 1].deployments|)
  }

  function Of(g: Group, n: nat): (r: seq<Versioned>)
    requires n <= |g.deployments|
    ensures |r| == n
  {
    seq(n, i requires 0 <= i < n => Versioned(g.version, g.deployments[i]))
  }

  function Find(all: seq<Versioned>, id: string): (v: Option<Versioned>)
    ensures v.Some? ==> v.value in all && v.value.deployment.vote.id == id
    ensures v.None? ==> forall i :: 0 <= i < |all| ==> all[i].deployment.vote.id != id
  {
    if all == [] then None
    else if all[0].deployment.vote.id == id then Some(all[0])
    else Find(all[1..], id)
  }

  /** `historical_entry`: the first activation the table has for an agenda. */
  function First(table: seq<Historical>, id: string): (a: Option<Activation>)
    ensures a.None? <==> forall i :: 0 <= i < |table| ==> table[i].id != id
  {
    if table == [] then None
    else if table[0].id == id then Some(table[0].activation)
    else First(table[1..], id)
  }

  /** The last activation the table has for an agenda. */
  ghost function Last(table: seq<Historical>, id: string): (a: Option<Activation>)
    ensures a.None? <==> forall i :: 0 <= i < |table| ==> table[i].id != id
  {
    if table == [] then None
    else if table[|table| - 1].id == id then Some(table[|table| - 1].activation)
    else Last(table[..|table| - 1], id)
  }

  // ------------------------------------------------------------------
  // The lookup.

  /** An agenda with this historical entry, if any. */
  function AgendaWith(params: Params, required: seq<string>, entry: Option<Activation>, id: string): Result<Agenda>
  {
    var found := Find(Flat(params.groups), id);
    if found.None? then
      if entry.Some? then Err(UnknownHistorical)
      else if id in required then Ok(DefaultAgenda(params.mainNet))
      else Err(UnknownAgenda)
    else
      var agenda := DeploymentAgenda(params.mainNet, found.value);
      if agenda.Err? || entry.None? then agenda else Attach(agenda.value, entry.value)
  }

  function LookupAgenda(params: Params, required: seq<string>, table: seq<Historical>, id: string): Result<Agenda>
  {
    AgendaWith(params, required, First(table, id), id)
  }

  // ------------------------------------------------------------------
  // The map.

  ghost predicate DistinctDeployments(all: seq<Versioned>)
  {
    forall i, j :: 0 <= i < j < |all| ==> all[i].deployment.vote.id != all[j].deployment.vote.id
  }

  ghost predicate HeldBy(mainNet: bool, v: Versioned, m: map<string, Agenda>)
  {
    var id := v.deployment.vote.id;
    id in m && DeploymentAgenda(mainNet, v) == Ok(m[id])
  }

  /** The map holds each deployment's agenda under its id. */
  ghost predicate Holds(mainNet: bool, all: seq<Versioned>, m: map<string, Agenda>)
  {
    && DistinctDeployments(all)
    && (forall i :: 0 <= i < |all| ==> HeldBy(mainNet, all[i], m))
    && (forall id :: id in m ==> Find(all, id).Some?)
  }

  lemma {:induction false} FindAppend(all: seq<Versioned>, v: Versioned, id: string)
    ensures Find(all + [v], id) == if Find(all, id).Some? then Find(all, id)
                                   else if v.deployment.vote.id == id then Some(v) else None
  {
    if all == [] {
      assert [] + [v] == [v];
    } else {
      FindAppend(all[1..], v, id);
      assert (all + [v])[1..] == all[1..] + [v];
    }
  }

  lemma HoldsMore(mainNet: bool, all: seq<Versioned>, m: map<string, Agenda>, v: Versioned)
    requires Holds(mainNet, all, m) && v.deployment.vote.id !in m && DeploymentAgenda(mainNet, v).Ok?
    ensures Holds(mainNet, all + [v], m[v.deployment.vote.id := DeploymentAgenda(mainNet, v).value])
  {
    hide Find, DeploymentAgenda;
    var id := v.deployment.vote.id;
    var more, m' := all + [v], m[id := DeploymentAgenda(mainNet, v).value];
    forall j | j in m'
      ensures Find(more, j).Some?
    {
      FindAppend(all, v, j);
    }
  }

  /** In a map that holds, looking up the id finds the agenda's own deployment. */
  lemma HeldFound(mainNet: bool, all: seq<Versioned>, m: map<string, Agenda>, id: string)
    requires Holds(mainNet, all, m)
    ensures id in m <==> Find(all, id).Some?
    ensures id in m ==> DeploymentAgenda(mainNet, Find(all, id).value) == Ok(m[id])
  {
    hide Find, DeploymentAgenda;
    var found := Find(all, id);
    if found.Some? {
      var i :| 0 <= i < |all| && all[i] == found.value;
    }
  }

  /** Each agenda with the last of the first n activations the table has for it. */
  ghost predicate AttachedSoFar(base: map<string, Agenda>, m: map<string, Agenda>, table: seq<Historical>)
  {
    && m.Keys == base.Keys
    && (forall i :: 0 <= i < |table| ==> table[i].id in base)
    && forall id :: id in base ==> AttachedLast(base[id], m[id], Last(table, id))
  }

  ghost predicate AttachedLast(was: Agenda, now: Agenda, entry: Option<Activation>)
  {
    && (was.forced.None? ==> was.deployment.Some?)
    && Ok(now) == if entry.None? then Ok(was) else Attach(was, entry.value)
  }

  /** Attaching replaces what was attached before. */
  lemma AttachAgain(was: Agenda, now: Agenda, entry: Option<Activation>, next: Activation)
    requires AttachedLast(was, now, entry)
    ensures (now.forced.None? ==> now.deployment.Some?) && Attach(now, next) == Attach(was, next)
  {}

  lemma LastMore(table: seq<Historical>, n: nat, id: string)
    requires n < |table|
    ensures Last(table[..n + 1], id) == if table[n].id == id then Some(table[n].activation) else Last(table[..n], id)
  {
    assert table[..n + 1][..n] == table[..n];
  }

  lemma AttachMore(base: map<string, Agenda>, m: map<string, Agenda>, table: seq<Historical>, n: nat)
    requires n < |table| && AttachedSoFar(base, m, table[..n]) && table[n].id in m
    ensures m[table[n].id].forced.None? ==> m[table[n].id].deployment.Some?
    ensures var r := Attach(m[table[n].id], table[n].activation);
            r.Ok? ==> AttachedSoFar(base, m[table[n].id := r.value], table[..n + 1])
  {
    hide Attach, Last;
    var id := table[n].id;
    assert AttachedLast(base[id], m[id], Last(table[..n], id));
    AttachAgain(base[id], m[id], Last(table[..n], id), table[n].activation);
    var r := Attach(m[id], table[n].activation);
    if r.Ok? {
      var m' := m[id := r.value];
      forall j | j in base
        ensures AttachedLast(base[j], m'[j], Last(table[..n + 1], j))
      {
        LastMore(table, n, j);
        assert AttachedLast(base[j], m[j], Last(table[..n], j));
      }
    }
  }

  // ------------------------------------------------------------------
  // Acceptable parameters.

  ghost predicate MasksDisjoint(g: Group, n: nat)
    requires n <= |g.deployments|
  {
    forall i, j :: 0 <= i < j < n ==> g.deployments[i].vote.mask !! g.deployments[j].vote.mask
  }

  ghost predicate DeploymentOk(mainNet: bool, choicesOk: Vote -> bool, v: Versioned)
  {
    choicesOk(v.deployment.vote) && DeploymentAgenda(mainNet, v).Ok?
  }

  /** Distinct ids, disjoint masks within a version, and usable choices. */
  ghost predicate DeploymentsOk(params: Params, choicesOk: Vote -> bool)
  {
    var all := Flat(params.groups);
    && DistinctDeployments(all)
    && (forall g :: 0 <= g < |params.groups| ==> MasksDisjoint(params.groups[g], |params.groups[g].deployments|))
    && (forall i :: 0 <= i < |all| ==> DeploymentOk(params.mainNet, choicesOk, all[i]))
  }

  /** Every activation is of a deployment that is not forced, for a choice that can win. */
  ghost predicate HistoricalOk(params: Params, table: seq<Historical>)
  {
    forall i :: 0 <= i < |table| ==> EntryOk(params.mainNet, Flat(params.groups), table[i])
  }

  ghost predicate EntryOk(mainNet: bool, all: seq<Versioned>, h: Historical)
  {
    var found := Find(all, h.id);
    found.Some? && DeploymentAgenda(mainNet, found.value).Ok?
    && Attach(DeploymentAgenda(mainNet, found.value).value, h.activation).Ok?
  }

  lemma {:induction false} FlatAt(groups: seq<Group>, g: nat, d: nat)
    requires g < |groups| && d < |groups[g].deployments|
    ensures var before := Flat(groups[..g]) + Of(groups[g], d);
            before + [Versioned(groups[g].version, groups[g].deployments[d])] <= Flat(groups)
  {
    var n := |groups| - 1;
    if g < n {
      FlatAt(groups[..n], g, d);
      assert groups[..n][..g] == groups[..g];
    } else {
      var last := Of(groups[n], |groups[n].deployments|);
      assert last[..d + 1] == Of(groups[n], d) + [Versioned(groups[g].version, groups[g].deployments[d])];
      assert Flat(groups) == Flat(groups[..g]) + last;
    }
  }

  /** A deployment that fails a check makes the parameters unacceptable. */
  lemma Refused(params: Params, choicesOk: Vote -> bool, m: map<string, Agenda>, g: nat, d: nat)
    requires g < |params.groups| && d < |params.groups[g].deployments|
    requires Holds(params.mainNet, Flat(params.groups[..g]) + Of(params.groups[g], d), m)
    requires var v := Versioned(params.groups[g].version, params.groups[g].deployments[d]);
             v.deployment.vote.id in m || !DeploymentOk(params.mainNet, choicesOk, v)
    ensures !DeploymentsOk(params, choicesOk)
  {
    hide DeploymentOk, Find, HeldBy;
    var before := Flat(params.groups[..g]) + Of(params.groups[g], d);
    var v := Versioned(params.groups[g].version, params.groups[g].deployments[d]);
    var all := Flat(params.groups);
    FlatAt(params.groups, g, d);
    assert all[|before|] == v;
    if v.deployment.vote.id in m {
      var found := Find(before, v.deployment.vote.id).value;
      var i :| 0 <= i < |before| && before[i] == found;
      assert all[i] == before[i];
    }
  }

  ghost predicate Uses(used: set<nat>, g: Group, n: nat)
    requires n <= |g.deployments|
  {
    forall b :: b in used <==> exists i :: 0 <= i < n && b in g.deployments[i].vote.mask
  }

  lemma UsesMore(used: set<nat>, g: Group, n: nat)
    requires n < |g.deployments| && Uses(used, g, n) && MasksDisjoint(g, n)
    ensures var mask := g.deployments[n].vote.mask;
            && Uses(used + mask, g, n + 1)
            && (mask !! used <==> MasksDisjoint(g, n + 1))
  {
    hide MasksDisjoint;
    var mask := g.deployments[n].vote.mask;
    forall b | b in used + mask
      ensures exists i :: 0 <= i < n + 1 && b in g.deployments[i].vote.mask
    {
      if b in used {
        var i :| 0 <= i < n && b in g.deployments[i].vote.mask;
      }
    }
    DisjointMore(used, g, n);
  }

  lemma DisjointMore(used: set<nat>, g: Group, n: nat)
    requires n < |g.deployments| && Uses(used, g, n) && MasksDisjoint(g, n)
    ensures g.deployments[n].vote.mask !! used <==> MasksDisjoint(g, n + 1)
  {
    var mask := g.deployments[n].vote.mask;
    if mask !! used {
      forall i | 0 <= i < n
        ensures g.deployments[i].vote.mask !! mask
      {
        assert forall b :: b in g.deployments[i].vote.mask ==> b in used;
      }
    } else {
      var b :| b in mask && b in used;
      var i :| 0 <= i < n && b in g.deployments[i].vote.mask;
      assert !(g.deployments[i].vote.mask !! mask);
    }
  }

  lemma MasksRefused(params: Params, choicesOk: Vote -> bool, g: nat, n: nat)
    requires g < |params.groups| && n <= |params.groups[g].deployments| && !MasksDisjoint(params.groups[g], n)
    ensures !DeploymentsOk(params, choicesOk)
  {
    hide DeploymentOk, DistinctDeployments;
  }

  // ------------------------------------------------------------------
  // Building the map.

  method CollectDeployments(params: Params, choicesOk: Vote -> bool) returns (r: Result<map<string, Agenda>>)
    ensures r.Ok? <==> DeploymentsOk(params, choicesOk)
    ensures r.Ok? ==> Holds(params.mainNet, Flat(params.groups), r.value)
  {
    hide Holds, DeploymentsOk, DeploymentOk;
    var agendas: map<string, Agenda> := map[];
    HoldsNone(params.mainNet);
    for g := 0 to |params.groups|
      invariant Holds(params.mainNet, Flat(params.groups[..g]), agendas)
      invariant GroupsOk(params, choicesOk, g)
    {
      var group := params.groups[g];
      ghost var below := Flat(params.groups[..g]);
      assert below + Of(group, 0) == below;
      var used: set<nat> := {};
      for d := 0 to |group.deployments|
        invariant Holds(params.mainNet, below + Of(group, d), agendas)
        invariant Uses(used, group, d) && MasksDisjoint(group, d)
        invariant OkUpTo(params.mainNet, choicesOk, below + Of(group, d))
      {
        var v := Versioned(group.version, group.deployments[d]);
        var vote := v.deployment.vote;
        if vote.id in agendas {
          Refused(params, choicesOk, agendas, g, d);
          return Err(DuplicateDeployment);
        }
        UsesMore(used, group, d);
        if !(vote.mask !! used) {
          MasksRefused(params, choicesOk, g, d + 1);
          return Err(BadMask);
        }
        used := used + vote.mask;
        if !choicesOk(vote) {
          NotOk(params.mainNet, choicesOk, v);
          Refused(params, choicesOk, agendas, g, d);
          return Err(BadChoices);
        }
        var agenda := DeploymentAgenda(params.mainNet, v);
        if agenda.Err? {
          NotOk(params.mainNet, choicesOk, v);
          Refused(params, choicesOk, agendas, g, d);
          return Err(agenda.error);
        }
        HoldsMore(params.mainNet, below + Of(group, d), agendas, v);
        assert below + Of(group, d + 1) == below + Of(group, d) + [v];
        assert DeploymentOk(params.mainNet, choicesOk, v) by { IsOk(params.mainNet, choicesOk, v); }
        agendas := agendas[vote.id := agenda.value];
      }
      assert params.groups[..g + 1][..g] == params.groups[..g];
      assert Flat(params.groups[..g + 1]) == below + Of(group, |group.deployments|);
    }
    assert params.groups[..|params.groups|] == params.groups;
    AllOk(params, choicesOk, agendas);
    r := Ok(agendas);
  }

  lemma HoldsNone(mainNet: bool)
    ensures Holds(mainNet, Flat([]), map[])
  {}

  ghost predicate OkUpTo(mainNet: bool, choicesOk: Vote -> bool, all: seq<Versioned>)
  {
    forall i :: 0 <= i < |all| ==> DeploymentOk(mainNet, choicesOk, all[i])
  }

  ghost predicate GroupsOk(params: Params, choicesOk: Vote -> bool, n: nat)
    requires n <= |params.groups|
  {
    && OkUpTo(params.mainNet, choicesOk, Flat(params.groups[..n]))
    && forall g :: 0 <= g < n ==> MasksDisjoint(params.groups[g], |params.groups[g].deployments|)
  }

  lemma NotOk(mainNet: bool, choicesOk: Vote -> bool, v: Versioned)
    requires !choicesOk(v.deployment.vote) || DeploymentAgenda(mainNet, v).Err?
    ensures !DeploymentOk(mainNet, choicesOk, v)
  {}

  lemma IsOk(mainNet: bool, choicesOk: Vote -> bool, v: Versioned)
    requires choicesOk(v.deployment.vote) && DeploymentAgenda(mainNet, v).Ok?
    ensures DeploymentOk(mainNet, choicesOk, v)
  {}

  lemma AllOk(params: Params, choicesOk: Vote -> bool, m: map<string, Agenda>)
    requires Holds(params.mainNet, Flat(params.groups), m) && GroupsOk(params, choicesOk, |params.groups|)
    ensures DeploymentsOk(params, choicesOk)
  {
    assert params.groups[..|params.groups|] == params.groups;
  }

  method AttachAll(params: Params, base: map<string, Agenda>, table: seq<Historical>)
    returns (r: Result<map<string, Agenda>>)
    requires Holds(params.mainNet, Flat(params.groups), base)
    ensures r.Ok? <==> HistoricalOk(params, table)
    ensures r.Ok? ==> AttachedSoFar(base, r.value, table)
  {
    hide Holds, AttachedSoFar, Attach, EntryOk;
    var agendas := base;
    AttachedNone(params.mainNet, Flat(params.groups), base);
    for n := 0 to |table|
      invariant AttachedSoFar(base, agendas, table[..n]) && agendas.Keys == base.Keys
      invariant forall i :: 0 <= i < n ==> EntryOk(params.mainNet, Flat(params.groups), table[i])
    {
      var id := table[n].id;
      EntryIs(params.mainNet, Flat(params.groups), base, agendas, table, n);
      if id !in agendas {
        return Err(UnknownHistorical);
      }
      AttachMore(base, agendas, table, n);
      var agenda := Attach(agendas[id], table[n].activation);
      if agenda.Err? {
        return Err(agenda.error);
      }
      agendas := agendas[id := agenda.value];
    }
    assert table[..|table|] == table;
    r := Ok(agendas);
  }

  lemma AttachedNone(mainNet: bool, all: seq<Versioned>, base: map<string, Agenda>)
    requires Holds(mainNet, all, base)
    ensures AttachedSoFar(base, base, [])
  {
    hide Find, DeploymentAgenda;
    forall id | id in base
      ensures base[id].forced.None? ==> base[id].deployment.Some?
    {
      HeldFound(mainNet, all, base, id);
    }
  }

  /** An entry attaches to the agenda at hand exactly when it is acceptable. */
  lemma EntryIs(mainNet: bool, all: seq<Versioned>, base: map<string, Agenda>, m: map<string, Agenda>,
                table: seq<Historical>, n: nat)
    requires Holds(mainNet, all, base) && n < |table| && AttachedSoFar(base, m, table[..n])
    ensures table[n].id in m ==> (m[table[n].id].forced.None? ==> m[table[n].id].deployment.Some?)
    ensures EntryOk(mainNet, all, table[n]) <==> table[n].id in m && Attach(m[table[n].id], table[n].activation).Ok?
  {
    hide Find, DeploymentAgenda, Attach, Holds;
    var id := table[n].id;
    HeldFound(mainNet, all, base, id);
    if id in m {
      assert AttachedLast(base[id], m[id], Last(table[..n], id));
      AttachAgain(base[id], m[id], Last(table[..n], id), table[n].activation);
    }
  }

  method MakeAgendas(params: Params, required: seq<string>, table: seq<Historical>, choicesOk: Vote -> bool)
    returns (r: Result<map<string, Agenda>>)
    ensures r.Ok? <==> DeploymentsOk(params, choicesOk) && HistoricalOk(params, table)
    ensures r.Ok? ==> MapOf(params, required, table, r.value)
    ensures r.Ok? ==> forall id :: id in r.value ==> Says(params, Last(table, id), id, r.value[id])
  {
    hide Holds, AttachedSoFar, DeploymentsOk, HistoricalOk, MapOf, Says;
    var all := CollectDeployments(params, choicesOk);
    if all.Err? {
      return all;
    }
    var attached := AttachAll(params, all.value, table);
    if attached.Err? {
      return attached;
    }
    var agendas := attached.value;
    for i := 0 to |required|
      invariant WithDefaults(params.mainNet, attached.value, agendas, required[..i])
    {
      if required[i] !in agendas {
        agendas := agendas[required[i] := DefaultAgenda(params.mainNet)];
      }
    }
    assert required[..|required|] == required;
    Complete(params, required, table, all.value, attached.value, agendas);
    MapSays(params, required, table, agendas);
    r := Ok(agendas);
  }

  ghost predicate WithDefaults(mainNet: bool, attached: map<string, Agenda>, m: map<string, Agenda>,
                               required: seq<string>)
  {
    && (forall id :: id in m <==> id in attached || id in required)
    && forall id :: id in m ==> m[id] == if id in attached then attached[id] else DefaultAgenda(mainNet)
  }

  /** The map has exactly the deployed and the required agendas, each with the last activation
      the table has for it. */
  ghost predicate MapOf(params: Params, required: seq<string>, table: seq<Historical>, m: map<string, Agenda>)
  {
    && (forall id :: id in m <==> Find(Flat(params.groups), id).Some? || id in required)
    && (forall id :: id in m ==> AgendaWith(params, required, Last(table, id), id) == Ok(m[id]))
  }

  lemma Complete(params: Params, required: seq<string>, table: seq<Historical>, base: map<string, Agenda>,
                 attached: map<string, Agenda>, m: map<string, Agenda>)
    requires Holds(params.mainNet, Flat(params.groups), base) && AttachedSoFar(base, attached, table)
    requires WithDefaults(params.mainNet, attached, m, required)
    ensures MapOf(params, required, table, m)
  {
    hide Holds, Find, First, Last, DeploymentAgenda, Attach;
    forall id
      ensures id in m <==> Find(Flat(params.groups), id).Some? || id in required
      ensures id in m ==> AgendaWith(params, required, Last(table, id), id) == Ok(m[id])
    {
      HeldFound(params.mainNet, Flat(params.groups), base, id);
      if id in base {
        assert AttachedLast(base[id], attached[id], Last(table, id));
      }
    }
  }

  // ------------------------------------------------------------------
  // What an agenda says.

  /** The first choice with this id is at this place. */
  ghost predicate ChoiceAt(choices: seq<Choice>, id: string, i: nat)
  {
    i < |choices| && choices[i].id == id && forall j :: 0 <= j < i ==> choices[j].id != id
  }

  lemma {:induction false} ChoiceFound(choices: seq<Choice>, id: string)
    ensures FindChoice(choices, id).None? ==> forall i :: 0 <= i < |choices| ==> choices[i].id != id
    ensures FindChoice(choices, id).Some? ==>
              exists i: nat :: ChoiceAt(choices, id, i) && choices[i] == FindChoice(choices, id).value
  {
    if choices != [] && choices[0].id != id {
      ChoiceFound(choices[1..], id);
      if FindChoice(choices, id).Some? {
        var i: nat :| ChoiceAt(choices[1..], id, i) && choices[1..][i] == FindChoice(choices[1..], id).value;
        assert ChoiceAt(choices, id, i + 1);
      }
    } else if choices != [] {
      assert ChoiceAt(choices, id, 0);
    }
  }

  lemma ChoiceUnique(choices: seq<Choice>, id: string, i: nat)
    requires ChoiceAt(choices, id, i)
    ensures FindChoice(choices, id) == Some(choices[i])
  {
    ChoiceFound(choices, id);
    if FindChoice(choices, id).Some? {
      var j: nat :| ChoiceAt(choices, id, j) && choices[j] == FindChoice(choices, id).value;
      assert i == j;
    }
  }

  /** A choice that can be forced or can have won: it exists and is not the abstaining one. */
  ghost predicate Winner(choices: seq<Choice>, id: string, i: nat)
  {
    ChoiceAt(choices, id, i) && !choices[i].isAbstain
  }

  lemma WinnerFound(choices: seq<Choice>, id: string)
    ensures (exists i: nat :: Winner(choices, id, i)) <==>
              FindChoice(choices, id).Some? && !FindChoice(choices, id).value.isAbstain
  {
    hide FindChoice;
    ChoiceFound(choices, id);
    if i: nat :| Winner(choices, id, i) {
      ChoiceUnique(choices, id, i);
    } else if FindChoice(choices, id).Some? {
      var i: nat :| ChoiceAt(choices, id, i) && choices[i] == FindChoice(choices, id).value;
      assert Winner(choices, id, i) <==> !choices[i].isAbstain;
    }
  }

  /** What an agenda says, on the parameters and the activation given for it. Without a
      deployment it is in force everywhere but on the main network. A forced choice makes it
      active or failed. Otherwise it is its deployment, with the activation when the choice
      that won is not the rejecting one. */
  ghost predicate Says(params: Params, entry: Option<Activation>, id: string, a: Agenda)
  {
    var found := Find(Flat(params.groups), id);
    if found.None? then
      a == Agenda(Some(Forced(if params.mainNet then Defined else Active, "")), None, None)
    else
      var d := found.value.deployment;
      if d.forcedChoice != "" then
        && !params.mainNet && a.historical.None? && a.deployment.None?
        && exists i: nat ::
             && Winner(d.vote.choices, d.forcedChoice, i)
             && a.forced == Some(Forced(if d.vote.choices[i].isNo then Failed else Active, d.forcedChoice))
      else
        && a.forced == None && a.deployment == found
        && (entry.None? ==> a.historical == None)
        && (entry.Some? ==>
              exists i: nat ::
                && Winner(d.vote.choices, entry.value.choice, i)
                && a.historical == (if d.vote.choices[i].isNo then None
                                    else Some(Activation(entry.value.height, entry.value.hash, entry.value.choice))))
  }

  lemma AgendaSays(params: Params, required: seq<string>, entry: Option<Activation>, id: string)
    ensures var r := AgendaWith(params, required, entry, id); r.Ok? ==> Says(params, entry, id, r.value)
  {
    hide Find, Flat, FindChoice;
    var found := Find(Flat(params.groups), id);
    if found.Some? {
      var d := found.value.deployment;
      ChoiceFound(d.vote.choices, d.forcedChoice);
      if entry.Some? {
        ChoiceFound(d.vote.choices, entry.value.choice);
      }
    }
  }

  lemma MapSays(params: Params, required: seq<string>, table: seq<Historical>, m: map<string, Agenda>)
    requires MapOf(params, required, table, m)
    ensures forall id :: id in m ==> Says(params, Last(table, id), id, m[id])
  {
    hide Says, AgendaWith, Find;
    forall id | id in m
      ensures Says(params, Last(table, id), id, m[id])
    {
      AgendaSays(params, required, Last(table, id), id);
    }
  }

  /** A deployment is usable exactly when its vote is and a forced choice, which the main
      network does not allow, is one that can be forced. */
  lemma DeploymentOkMeans(mainNet: bool, choicesOk: Vote -> bool, v: Versioned)
    ensures DeploymentOk(mainNet, choicesOk, v) <==>
              && choicesOk(v.deployment.vote)
              && (v.deployment.forcedChoice != "" ==>
                    !mainNet && exists i: nat :: Winner(v.deployment.vote.choices, v.deployment.forcedChoice, i))
  {
    hide FindChoice, Winner;
    WinnerFound(v.deployment.vote.choices, v.deployment.forcedChoice);
  }

  /** An activation is acceptable exactly when it is of a deployment that is not forced, for a
      choice that can have won. */
  lemma EntryOkMeans(mainNet: bool, all: seq<Versioned>, h: Historical)
    ensures EntryOk(mainNet, all, h) <==>
              && Find(all, h.id).Some?
              && Find(all, h.id).value.deployment.forcedChoice == ""
              && exists i: nat :: Winner(Find(all, h.id).value.deployment.vote.choices, h.activation.choice, i)
  {
    hide FindChoice, Find, Winner;
    if Find(all, h.id).Some? {
      WinnerFound(Find(all, h.id).value.deployment.vote.choices, h.activation.choice);
    }
  }

  // ------------------------------------------------------------------
  // The lookup refines the map.

  ghost predicate DistinctIds(table: seq<Historical>)
  {
    forall i, j :: 0 <= i < j < |table| ==> table[i].id != table[j].id
  }

  lemma {:induction false} FirstIsLast(table: seq<Historical>, id: string)
    requires DistinctIds(table)
    ensures First(table, id) == Last(table, id)
  {
    if table != [] && table[0].id != id {
      FirstIsLast(table[1..], id);
      LastRest(table, id);
    } else if table != [] {
      LastRest(table, id);
    }
  }

  lemma {:induction false} LastRest(table: seq<Historical>, id: string)
    requires table != []
    ensures Last(table, id) == if Last(table[1..], id).Some? then Last(table[1..], id)
                               else if table[0].id == id then Some(table[0].activation) else None
  {
    var n := |table| - 1;
    if n > 0 && table[n].id != id {
      LastRest(table[..n], id);
      assert table[..n][1..] == table[1..][..n - 1];
    }
  }

  /** On any table they agree on an agenda exactly when it has no activation there, or the first
      and the last of them resolve to the same activation of its deployment. */
  lemma LookupAgrees(params: Params, required: seq<string>, table: seq<Historical>, m: map<string, Agenda>, id: string)
    requires MapOf(params, required, table, m) && HistoricalOk(params, table) && id in m
    ensures First(table, id).Some? <==> Last(table, id).Some?
    ensures First(table, id).Some? ==> Find(Flat(params.groups), id).Some?
    ensures LookupAgenda(params, required, table, id) == Ok(m[id]) <==>
              First(table, id).None? ||
              var d := Find(Flat(params.groups), id).value.deployment;
              ResolveHistorical(First(table, id).value, d) == ResolveHistorical(Last(table, id).value, d)
  {
    hide Find, First, Last, ResolveHistorical;
    var first, last := First(table, id), Last(table, id);
    if first.Some? {
      FirstOk(params, table, id);
      LastOk(params, table, id);
    }
  }

  lemma {:induction false} FirstOk(params: Params, table: seq<Historical>, id: string)
    requires HistoricalOk(params, table) && First(table, id).Some?
    ensures EntryOk(params.mainNet, Flat(params.groups), Historical(id, First(table, id).value))
  {
    if table[0].id != id {
      FirstOk(params, table[1..], id);
    }
  }

  lemma {:induction false} LastOk(params: Params, table: seq<Historical>, id: string)
    requires HistoricalOk(params, table) && Last(table, id).Some?
    ensures EntryOk(params.mainNet, Flat(params.groups), Historical(id, Last(table, id).value))
  {
    var n := |table| - 1;
    if table[n].id != id {
      LastOk(params, table[..n], id);
    }
  }

  /** On an acceptable table an id the map does not have is unknown to the lookup. */
  lemma LookupUnknown(params: Params, required: seq<string>, table: seq<Historical>, m: map<string, Agenda>, id: string)
    requires MapOf(params, required, table, m) && HistoricalOk(params, table) && id !in m
    ensures LookupAgenda(params, required, table, id) == Err(UnknownAgenda)
  {
    hide Find, First;
    if First(table, id).Some? {
      FirstOk(params, table, id);
    }
  }

  /** On an acceptable table with distinct ids the lookup is the map: its agenda for every id in
      it, and unknown for every other. */
  lemma LookupRefines(params: Params, required: seq<string>, table: seq<Historical>, m: map<string, Agenda>, id: string)
    requires MapOf(params, required, table, m) && HistoricalOk(params, table) && DistinctIds(table)
    ensures LookupAgenda(params, required, table, id) == if id in m then Ok(m[id]) else Err(UnknownAgenda)
  {
    hide Find, First, Last, AgendaWith;
    FirstIsLast(table, id);
    if id !in m {
      LookupUnknown(params, required, table, m, id);
    }
  }

  /** A vote with an abstaining, a rejecting and an accepting choice. */
  function RepeatVote(): Vote
  {
    Vote("a", {1, 2}, [Choice("abstain", true, false), Choice("no", false, true), Choice("yes", false, false)])
  }

  function RepeatParams(): Params
  {
    Params(true, [Group(1, [Deployment(RepeatVote(), "")])])
  }

  function RepeatTable(): seq<Historical>
  {
    [Historical("a", Activation(1, 1, "yes")), Historical("a", Activation(2, 2, "yes"))]
  }

  lemma RepeatParts()
    ensures var d := Versioned(1, Deployment(RepeatVote(), ""));
            && Flat(RepeatParams().groups) == [d]
            && Find([d], "a") == Some(d)
            && DeploymentAgenda(true, d) == Ok(Agenda(None, None, Some(d)))
            && FindChoice(RepeatVote().choices, "yes") == Some(Choice("yes", false, false))
    ensures First(RepeatTable(), "a") == Some(Activation(1, 1, "yes"))
    ensures Last(RepeatTable(), "a") == Some(Activation(2, 2, "yes"))
  {
    var choices := RepeatVote().choices;
    assert FindChoice(choices[2..], "yes") == Some(choices[2]);
    assert choices[1..][1..] == choices[2..];
    assert RepeatParams().groups[..0] == [];
    assert Flat([]) == [];
  }

  /** A table that repeats an id can make them differ, on parameters the map accepts. */
  lemma RepeatedIdDiffers(choicesOk: Vote -> bool, m: map<string, Agenda>)
    requires choicesOk(RepeatVote())
    ensures DeploymentsOk(RepeatParams(), choicesOk) && HistoricalOk(RepeatParams(), RepeatTable())
    ensures MapOf(RepeatParams(), [], RepeatTable(), m) ==>
              "a" in m && LookupAgenda(RepeatParams(), [], RepeatTable(), "a") != Ok(m["a"])
  {
    hide Flat, Find, FindChoice, First, Last, DeploymentAgenda;
    RepeatParts();
  }

  /** So the map is built, and the lookup gives another agenda. */
  method RepeatedId(choicesOk: Vote -> bool) returns (m: map<string, Agenda>)
    requires choicesOk(RepeatVote())
    ensures "a" in m && LookupAgenda(RepeatParams(), [], RepeatTable(), "a") != Ok(m["a"])
  {
    hide DeploymentsOk, HistoricalOk, MapOf, LookupAgenda;
    var r := MakeAgendas(RepeatParams(), [], RepeatTable(), choicesOk);
    RepeatedIdDiffers(choicesOk, if r.Ok? then r.value else map[]);
    m := r.value;
  }
}
