/** The rules of the crate tiers and the check that finds every offence against
    them (xtask/src/tiers.rs). */
module TierRules {
  import opened Basics
  import opened Graphs
  import opened Tiers
  import opened Orders

  type Roles = seq<seq<string>>

  /** What is wrong: with a crate's class, or with what a member reaches. */
  datatype Kind =
    | InNoTier(name: string)
    | InSeveralTiers(name: string)
    | NotAMember(name: string)
    | ForbiddenTier(name: string, to: string)
    | WindowsBinding(name: string, to: string)
    | RawBinding(name: string, at: string, dep: string)
    | OtherRole(name: string, to: string)

  /** One offence, with the path that shows it. */
  datatype Offence = Offence(kind: Kind, path: seq<string>)

  // ---- The rules ----

  predicate Constrained(tier: Option<Tier>) {
    tier == Some(PlatformNeutral) || tier == Some(Logic)
  }

  /** Whether a crate of tier `own` may reach a workspace crate of tier `other`. */
  predicate Allowed(own: Option<Tier>, other: Option<Tier>) {
    other == Some(PlatformNeutral) || (own != Some(PlatformNeutral) && other == Some(Logic))
  }

  /** Role `k` names a crate, and none before it does. */
  predicate FirstNaming(roles: Roles, name: string, k: nat) {
    k < |roles| && name in roles[k] && forall i :: 0 <= i < k ==> name !in roles[i]
  }

  /** The role of a crate: the first that names it. */
  function RoleOf(roles: Roles, name: string): (role: Option<seq<string>>)
    ensures role.Some? ==> exists k :: 0 <= k < |roles| && FirstNaming(roles, name, k) && role.value == roles[k]
    ensures role.Some? ==> name in role.value && role.value in roles
    ensures role.None? <==> forall k :: 0 <= k < |roles| ==> name !in roles[k]
  {
    if roles == [] then None
    else if name in roles[0] then
      assert FirstNaming(roles, name, 0);
      Some(roles[0])
    else
      assert forall k :: 0 < k < |roles| ==> roles[k] == roles[1..][k - 1];
      assert forall k :: 0 < k < |roles| && FirstNaming(roles[1..], name, k - 1) ==> FirstNaming(roles, name, k);
      RoleOf(roles[1..], name)
  }

  ghost predicate ClassViolated(members: map<string, string>, tiers: TierList, kind: Kind) {
    match kind
    case InNoTier(name) => name in members && TierCount(tiers, name) == 0
    case InSeveralTiers(name) => name in members && TierCount(tiers, name) > 1
    case NotAMember(name) => name !in members && exists k :: 0 <= k < |tiers| && Lists(tiers[k], name)
    case _ => false
  }

  /** `to` is another package that `id` reaches. */
  ghost predicate Beyond(g: Graph, id: string, to: string) {
    to != id && Reaches(g, id, to)
  }

  ghost predicate TierViolated(g: Graph, tiers: TierList, name: string, id: string, kind: Kind) {
    && Constrained(TierOf(tiers, name))
    && match kind
       case ForbiddenTier(n, to) =>
         n == name && Beyond(g, id, to) && IsMember(g, to)
         && !Allowed(TierOf(tiers, name), TierOf(tiers, Name(g, to)))
       case WindowsBinding(n, to) =>
         n == name && Beyond(g, id, to) && IsWindowsBinding(Name(g, to))
       case RawBinding(n, at, dep) =>
         n == name && (at == id || (Beyond(g, id, at) && IsMember(g, at))) && Name(g, at) != WORKSPACE_HACK
         && dep in Edges(g, at) && IsRawWindowsBinding(Name(g, dep))
       case _ => false
  }

  ghost predicate RoleViolated(g: Graph, roles: Roles, name: string, id: string, kind: Kind) {
    match kind
    case OtherRole(n, to) =>
      && n == name && RoleOf(roles, name).Some? && Beyond(g, id, to) && IsMember(g, to)
      && Name(g, to) !in RoleOf(roles, name).value && RoleOf(roles, Name(g, to)).Some?
    case _ => false
  }

  ghost predicate MemberViolated(g: Graph, tiers: TierList, roles: Roles, name: string, id: string, kind: Kind) {
    TierViolated(g, tiers, name, id, kind) || RoleViolated(g, roles, name, id, kind)
  }

  ghost predicate Violated(g: Graph, tiers: TierList, roles: Roles, members: map<string, string>, kind: Kind) {
    || ClassViolated(members, tiers, kind)
    || exists name :: name in members && MemberViolated(g, tiers, roles, name, members[name], kind)
  }

  // ---- Reports ----

  ghost predicate Reports(list: seq<Offence>, kind: Kind) {
    exists i :: 0 <= i < |list| && list[i].kind == kind
  }

  /** The path of an offence about a member leads from it to the culprit, and is
      a shortest one (of a raw binding, to the crate that depends on it). */
  ghost predicate Evident(g: Graph, members: map<string, string>, o: Offence) {
    match o.kind
    case ForbiddenTier(name, to) => name in members && Shortest(g, o.path, members[name], to)
    case WindowsBinding(name, to) => name in members && Shortest(g, o.path, members[name], to)
    case OtherRole(name, to) => name in members && Shortest(g, o.path, members[name], to)
    case RawBinding(name, at, dep) =>
      && name in members && |o.path| > 0 && o.path[|o.path| - 1] == dep
      && Shortest(g, o.path[..|o.path| - 1], members[name], at)
    case _ => o.path == []
  }

  ghost predicate AllEvident(g: Graph, members: map<string, string>, list: seq<Offence>) {
    forall i :: 0 <= i < |list| ==> Evident(g, members, list[i])
  }

  lemma ReportsPush(list: seq<Offence>, o: Offence)
    ensures forall kind :: Reports(list + [o], kind) <==> Reports(list, kind) || o.kind == kind
  {
    var more := list + [o];
    forall kind ensures Reports(more, kind) <==> Reports(list, kind) || o.kind == kind {
      if Reports(list, kind) {
        var i :| 0 <= i < |list| && list[i].kind == kind;
        assert more[i].kind == kind;
      }
      assert more[|list|] == o;
      if Reports(more, kind) {
        var i :| 0 <= i < |more| && more[i].kind == kind;
        if i < |list| { assert list[i].kind == kind; }
      }
    }
  }

  // ---- Classing ----

  method ClassingOffences(members: map<string, string>, tiers: TierList) returns (offences: seq<Offence>)
    ensures forall kind :: Reports(offences, kind) <==> ClassViolated(members, tiers, kind)
    ensures forall i :: 0 <= i < |offences| ==> offences[i].path == [] && ClassKind(offences[i].kind)
  {
    offences := MisclassedOffences(members, tiers);
    for t := 0 to |tiers|
      invariant forall kind :: Reports(offences, kind) <==>
                  Misclassed(members, tiers, kind) || Stray(members, tiers[..t], kind)
      invariant forall i :: 0 <= i < |offences| ==> offences[i].path == [] && ClassKind(offences[i].kind)
    {
      StrayStep(members, tiers, t);
      offences := StrayOffences(members, tiers[t].1, offences);
    }
    assert tiers[..|tiers|] == tiers;
  }

  ghost predicate Misclassed(members: map<string, string>, tiers: TierList, kind: Kind) {
    ClassViolated(members, tiers, kind) && !kind.NotAMember?
  }

  ghost predicate MisclassedAmong(members: map<string, string>, tiers: TierList, names: seq<string>, kind: Kind) {
    Misclassed(members, tiers, kind) && kind.name in names
  }

  lemma MisclassedStep(members: map<string, string>, tiers: TierList, names: seq<string>, k: nat, kind: Kind)
    requires k < |names| && names[k] in members
    ensures MisclassedAmong(members, tiers, names[..k + 1], kind) <==>
            || MisclassedAmong(members, tiers, names[..k], kind)
            || (TierCount(tiers, names[k]) == 0 && kind == InNoTier(names[k]))
            || (TierCount(tiers, names[k]) > 1 && kind == InSeveralTiers(names[k]))
  {
    assert names[..k + 1] == names[..k] + [names[k]];
  }

  /** Every member in no tier or in several. */
  method MisclassedOffences(members: map<string, string>, tiers: TierList) returns (offences: seq<Offence>)
    ensures forall kind :: Reports(offences, kind) <==> Misclassed(members, tiers, kind)
    ensures forall i :: 0 <= i < |offences| ==> offences[i].path == [] && ClassKind(offences[i].kind)
  {
    offences := [];
    var names := SortedKeys(members.Keys);
    for k := 0 to |names|
      invariant forall kind :: Reports(offences, kind) <==> MisclassedAmong(members, tiers, names[..k], kind)
      invariant forall i :: 0 <= i < |offences| ==> offences[i].path == [] && ClassKind(offences[i].kind)
    {
      var name := names[k];
      assert name in members;
      var classed := TierCount(tiers, name);
      forall kind
        ensures MisclassedAmong(members, tiers, names[..k + 1], kind) <==>
                || MisclassedAmong(members, tiers, names[..k], kind)
                || (classed == 0 && kind == InNoTier(name)) || (classed > 1 && kind == InSeveralTiers(name))
      {
        MisclassedStep(members, tiers, names, k, kind);
      }
      if classed == 0 {
        ReportsPush(offences, Offence(InNoTier(name), []));
        offences := offences + [Offence(InNoTier(name), [])];
      } else if classed > 1 {
        ReportsPush(offences, Offence(InSeveralTiers(name), []));
        offences := offences + [Offence(InSeveralTiers(name), [])];
      }
    }
    assert names[..|names|] == names;
  }

  ghost predicate ClassKind(kind: Kind) {
    kind.InNoTier? || kind.InSeveralTiers? || kind.NotAMember?
  }

  /** A name some of the lists hold that is no member's. */
  ghost predicate Stray(members: map<string, string>, tiers: TierList, kind: Kind) {
    kind.NotAMember? && kind.name !in members && exists k :: 0 <= k < |tiers| && Lists(tiers[k], kind.name)
  }

  lemma StrayStep(members: map<string, string>, tiers: TierList, t: nat)
    requires t < |tiers|
    ensures forall kind :: Stray(members, tiers[..t + 1], kind) <==>
              Stray(members, tiers[..t], kind) || (kind.NotAMember? && kind.name !in members && kind.name in tiers[t].1)
  {
    var before, upTo := tiers[..t], tiers[..t + 1];
    forall kind
      ensures Stray(members, upTo, kind) <==>
              Stray(members, before, kind) || (kind.NotAMember? && kind.name !in members && kind.name in tiers[t].1)
    {
      if Stray(members, before, kind) {
        var k :| 0 <= k < |before| && Lists(before[k], kind.name);
        assert Lists(upTo[k], kind.name);
      }
      if Stray(members, upTo, kind) {
        var k :| 0 <= k < |upTo| && Lists(upTo[k], kind.name);
        if k < t { assert Lists(before[k], kind.name); }
      }
      if kind.NotAMember? && kind.name in tiers[t].1 { assert Lists(upTo[t], kind.name); }
    }
  }

  method StrayOffences(members: map<string, string>, names: seq<string>, list: seq<Offence>)
    returns (offences: seq<Offence>)
    requires forall i :: 0 <= i < |list| ==> list[i].path == [] && ClassKind(list[i].kind)
    ensures forall kind :: Reports(offences, kind) <==>
              Reports(list, kind) || (kind.NotAMember? && kind.name !in members && kind.name in names)
    ensures forall i :: 0 <= i < |offences| ==> offences[i].path == [] && ClassKind(offences[i].kind)
  {
    offences := list;
    for k := 0 to |names|
      invariant forall kind :: Reports(offences, kind) <==>
                  Reports(list, kind) || (kind.NotAMember? && kind.name !in members && kind.name in names[..k])
      invariant forall i :: 0 <= i < |offences| ==> offences[i].path == [] && ClassKind(offences[i].kind)
    {
      assert names[..k + 1] == names[..k] + [names[k]];
      if names[k] !in members {
        ReportsPush(offences, Offence(NotAMember(names[k]), []));
        offences := offences + [Offence(NotAMember(names[k]), [])];
      }
    }
    assert names[..|names|] == names;
  }

  // ---- What one member reaches ----

  method Push(g: Graph, ghost members: map<string, string>, list: seq<Offence>, o: Offence)
    returns (more: seq<Offence>)
    requires AllEvident(g, members, list) && Evident(g, members, o)
    ensures AllEvident(g, members, more)
    ensures forall kind :: Reports(more, kind) <==> Reports(list, kind) || o.kind == kind
  {
    ReportsPush(list, o);
    more := list + [o];
  }

  ghost predicate TierViolatedAmong(g: Graph, tiers: TierList, name: string, id: string, ids: seq<string>, kind: Kind) {
    (kind.ForbiddenTier? || kind.WindowsBinding?) && kind.to in ids && TierViolated(g, tiers, name, id, kind)
  }

  lemma KeysBeyond(g: Graph, id: string, reached: map<string, seq<string>>, keys: seq<string>)
    requires ReachedFrom(g, id, reached) && forall to :: to in keys <==> to in reached
    ensures forall to :: to in keys <==> Beyond(g, id, to)
    ensures forall k :: 0 <= k < |keys| ==> |reached[keys[k]]| > 0 && Shortest(g, reached[keys[k]], id, keys[k])
  {
  }

  ghost predicate TierViolatedAt(g: Graph, tiers: TierList, name: string, to: string, kind: Kind) {
    || (kind == ForbiddenTier(name, to) && IsMember(g, to) && !Allowed(TierOf(tiers, name), TierOf(tiers, Name(g, to))))
    || (kind == WindowsBinding(name, to) && IsWindowsBinding(Name(g, to)))
  }

  lemma TierViolatedStep(g: Graph, tiers: TierList, name: string, id: string, ids: seq<string>, k: nat, kind: Kind)
    requires k < |ids| && Constrained(TierOf(tiers, name)) && Beyond(g, id, ids[k])
    ensures TierViolatedAmong(g, tiers, name, id, ids[..k + 1], kind) <==>
            TierViolatedAmong(g, tiers, name, id, ids[..k], kind) || TierViolatedAt(g, tiers, name, ids[k], kind)
  {
    assert ids[..k + 1] == ids[..k] + [ids[k]];
  }

  /** The offence, if any, of reaching `to` by `path`. */
  method ReachOffence(g: Graph, tiers: TierList, members: map<string, string>, name: string, to: string,
                      path: seq<string>, list: seq<Offence>)
    returns (offences: seq<Offence>)
    requires name in members && Shortest(g, path, members[name], to) && AllEvident(g, members, list)
    ensures forall kind :: Reports(offences, kind) <==> Reports(list, kind) || TierViolatedAt(g, tiers, name, to, kind)
    ensures AllEvident(g, members, offences)
  {
    offences := list;
    if IsMember(g, to) && !Allowed(TierOf(tiers, name), TierOf(tiers, Name(g, to))) {
      offences := Push(g, members, offences, Offence(ForbiddenTier(name, to), path));
    }
    if IsWindowsBinding(Name(g, to)) {
      offences := Push(g, members, offences, Offence(WindowsBinding(name, to), path));
    }
  }

  /** The offences of a constrained member among the packages it reaches. */
  method ReachOffences(g: Graph, tiers: TierList, members: map<string, string>, name: string,
                       reached: map<string, seq<string>>, list: seq<Offence>)
    returns (offences: seq<Offence>)
    requires name in members && ReachedFrom(g, members[name], reached) && Constrained(TierOf(tiers, name))
    requires AllEvident(g, members, list)
    ensures forall kind :: Reports(offences, kind) <==>
              Reports(list, kind) || (!kind.RawBinding? && TierViolated(g, tiers, name, members[name], kind))
    ensures AllEvident(g, members, offences)
  {
    offences := list;
    var keys := SortedKeys(reached.Keys);
    KeysBeyond(g, members[name], reached, keys);
    for k := 0 to |keys|
      invariant forall kind :: Reports(offences, kind) <==>
                  Reports(list, kind) || TierViolatedAmong(g, tiers, name, members[name], keys[..k], kind)
      invariant AllEvident(g, members, offences)
    {
      forall kind
        ensures TierViolatedAmong(g, tiers, name, members[name], keys[..k + 1], kind) <==>
                TierViolatedAmong(g, tiers, name, members[name], keys[..k], kind)
                || TierViolatedAt(g, tiers, name, keys[k], kind)
      {
        TierViolatedStep(g, tiers, name, members[name], keys, k, kind);
      }
      offences := ReachOffence(g, tiers, members, name, keys[k], reached[keys[k]], offences);
    }
    assert keys[..|keys|] == keys;
  }

  /** The raw bindings directly under the workspace crate at the end of `path`. */
  method RawOffences(g: Graph, members: map<string, string>, name: string, at: string, path: seq<string>,
                     list: seq<Offence>)
    returns (offences: seq<Offence>)
    requires name in members && |path| > 0 && Shortest(g, path, members[name], at)
    requires AllEvident(g, members, list)
    ensures forall kind :: Reports(offences, kind) <==> Reports(list, kind) || RawUnder(g, name, at, kind)
    ensures AllEvident(g, members, offences)
  {
    offences := list;
    if Name(g, at) == WORKSPACE_HACK { return; }
    var deps := Edges(g, at);
    for k := 0 to |deps|
      invariant forall kind :: Reports(offences, kind) <==>
                  Reports(list, kind) || (RawUnder(g, name, at, kind) && kind.dep in deps[..k])
      invariant AllEvident(g, members, offences)
    {
      assert deps[..k + 1] == deps[..k] + [deps[k]];
      if IsRawWindowsBinding(Name(g, deps[k])) {
        var o := Offence(RawBinding(name, at, deps[k]), path + [deps[k]]);
        assert o.path[..|o.path| - 1] == path;
        offences := Push(g, members, offences, o);
      }
    }
    assert deps[..|deps|] == deps;
  }

  ghost predicate RawUnder(g: Graph, name: string, at: string, kind: Kind) {
    && kind.RawBinding? && kind.name == name && kind.at == at && Name(g, at) != WORKSPACE_HACK
    && kind.dep in Edges(g, at) && IsRawWindowsBinding(Name(g, kind.dep))
  }

  ghost predicate RawAmong(g: Graph, name: string, ids: seq<string>, kind: Kind) {
    kind.RawBinding? && kind.at in ids && IsMember(g, kind.at) && RawUnder(g, name, kind.at, kind)
  }

  lemma RawAmongStep(g: Graph, name: string, ids: seq<string>, k: nat)
    requires k < |ids|
    ensures forall kind :: RawAmong(g, name, ids[..k + 1], kind) <==>
              RawAmong(g, name, ids[..k], kind) || (IsMember(g, ids[k]) && RawUnder(g, name, ids[k], kind))
  {
    assert ids[..k + 1] == ids[..k] + [ids[k]];
  }

  lemma SelfShortest(g: Graph, id: string)
    ensures Shortest(g, [id], id, id)
  {
  }

  lemma RawWhole(g: Graph, tiers: TierList, name: string, id: string, ids: seq<string>)
    requires Constrained(TierOf(tiers, name)) && forall to :: to in ids <==> Beyond(g, id, to)
    ensures forall kind :: RawUnder(g, name, id, kind) || RawAmong(g, name, ids, kind) <==>
              kind.RawBinding? && TierViolated(g, tiers, name, id, kind)
  {
  }

  /** The raw bindings under the member itself and every workspace crate it
      reaches. */
  method AllRawOffences(g: Graph, tiers: TierList, members: map<string, string>, name: string,
                        reached: map<string, seq<string>>, list: seq<Offence>)
    returns (offences: seq<Offence>)
    requires name in members && ReachedFrom(g, members[name], reached) && Constrained(TierOf(tiers, name))
    requires AllEvident(g, members, list)
    ensures forall kind :: Reports(offences, kind) <==>
              Reports(list, kind) || (kind.RawBinding? && TierViolated(g, tiers, name, members[name], kind))
    ensures AllEvident(g, members, offences)
  {
    SelfShortest(g, members[name]);
    offences := RawOffences(g, members, name, members[name], [members[name]], list);
    var keys := SortedKeys(reached.Keys);
    KeysBeyond(g, members[name], reached, keys);
    for k := 0 to |keys|
      invariant forall kind :: Reports(offences, kind) <==>
                  Reports(list, kind) || RawUnder(g, name, members[name], kind) || RawAmong(g, name, keys[..k], kind)
      invariant AllEvident(g, members, offences)
    {
      RawAmongStep(g, name, keys, k);
      if IsMember(g, keys[k]) {
        offences := RawOffences(g, members, name, keys[k], reached[keys[k]], offences);
      }
    }
    assert keys[..|keys|] == keys;
    RawWhole(g, tiers, name, members[name], keys);
  }

  ghost predicate RoleViolatedAmong(g: Graph, roles: Roles, name: string, id: string, ids: seq<string>, kind: Kind) {
    kind.OtherRole? && kind.to in ids && RoleViolated(g, roles, name, id, kind)
  }

  lemma RoleViolatedStep(g: Graph, roles: Roles, name: string, id: string, ids: seq<string>, k: nat, kind: Kind)
    requires k < |ids| && Beyond(g, id, ids[k]) && RoleOf(roles, name).Some?
    ensures RoleViolatedAmong(g, roles, name, id, ids[..k + 1], kind) <==>
            || RoleViolatedAmong(g, roles, name, id, ids[..k], kind)
            || (kind == OtherRole(name, ids[k]) && IsMember(g, ids[k])
                && Name(g, ids[k]) !in RoleOf(roles, name).value && RoleOf(roles, Name(g, ids[k])).Some?)
  {
    assert ids[..k + 1] == ids[..k] + [ids[k]];
  }

  method RoleOffences(g: Graph, roles: Roles, members: map<string, string>, name: string,
                      reached: map<string, seq<string>>, list: seq<Offence>)
    returns (offences: seq<Offence>)
    requires name in members && ReachedFrom(g, members[name], reached) && AllEvident(g, members, list)
    ensures forall kind :: Reports(offences, kind) <==>
              Reports(list, kind) || RoleViolated(g, roles, name, members[name], kind)
    ensures AllEvident(g, members, offences)
  {
    offences := list;
    var role := RoleOf(roles, name);
    if role.None? { return; }
    var keys := SortedKeys(reached.Keys);
    KeysBeyond(g, members[name], reached, keys);
    for k := 0 to |keys|
      invariant forall kind :: Reports(offences, kind) <==>
                  Reports(list, kind) || RoleViolatedAmong(g, roles, name, members[name], keys[..k], kind)
      invariant AllEvident(g, members, offences)
    {
      var to := keys[k];
      var breaks := IsMember(g, to) && Name(g, to) !in role.value && RoleOf(roles, Name(g, to)).Some?;
      forall kind
        ensures RoleViolatedAmong(g, roles, name, members[name], keys[..k + 1], kind) <==>
                RoleViolatedAmong(g, roles, name, members[name], keys[..k], kind)
                || (breaks && kind == OtherRole(name, to))
      {
        RoleViolatedStep(g, roles, name, members[name], keys, k, kind);
      }
      if breaks {
        offences := Push(g, members, offences, Offence(OtherRole(name, to), reached[to]));
      }
    }
    assert keys[..|keys|] == keys;
  }

  // ---- The whole check ----

  /** Every offence of one member. */
  method MemberOffences(g: Graph, tiers: TierList, roles: Roles, members: map<string, string>, name: string,
                        list: seq<Offence>)
    returns (offences: seq<Offence>)
    requires name in members && AllEvident(g, members, list)
    ensures AllEvident(g, members, offences)
    ensures forall kind :: Reports(offences, kind) <==>
              Reports(list, kind) || MemberViolated(g, tiers, roles, name, members[name], kind)
  {
    offences := list;
    var reached := Reached(g, members[name]);
    if Constrained(TierOf(tiers, name)) {
      offences := ReachOffences(g, tiers, members, name, reached, offences);
      offences := AllRawOffences(g, tiers, members, name, reached, offences);
    }
    offences := RoleOffences(g, roles, members, name, reached, offences);
  }

  /** Every offence against the rules, and no other, each with a path that
      shows it. */
  method Offences(g: Graph, tiers: TierList, roles: Roles)
    returns (offences: seq<Offence>, ghost members: map<string, string>)
    ensures MembersOf(g, members) && AllEvident(g, members, offences)
    ensures forall kind :: Reports(offences, kind) <==> Violated(g, tiers, roles, members, kind)
    ensures forall kind :: Reports(offences, kind) ==> RuleBroken(g, tiers, roles, kind)
    ensures DistinctNames(g) ==> forall kind :: Reports(offences, kind) <==> RuleBroken(g, tiers, roles, kind)
  {
    var byName := Members(g);
    members := byName;
    offences := ClassingOffences(byName, tiers);
    var names := SortedKeys(byName.Keys);
    for k := 0 to |names|
      invariant AllEvident(g, members, offences)
      invariant forall kind :: Reports(offences, kind) <==>
                  ClassViolated(members, tiers, kind) || ViolatedBy(g, tiers, roles, members, names[..k], kind)
    {
      assert names[k] in members;
      ViolatedByStep(g, tiers, roles, members, names, k);
      offences := MemberOffences(g, tiers, roles, byName, names[k], offences);
    }
    assert names[..|names|] == names;
    EveryKindReported(g, tiers, roles, members);
  }

  ghost predicate ViolatedBy(g: Graph, tiers: TierList, roles: Roles, members: map<string, string>,
                             names: seq<string>, kind: Kind)
  {
    exists name :: name in names && name in members && MemberViolated(g, tiers, roles, name, members[name], kind)
  }

  lemma ViolatedByStep(g: Graph, tiers: TierList, roles: Roles, members: map<string, string>,
                       names: seq<string>, k: nat)
    requires k < |names| && names[k] in members
    ensures forall kind :: ViolatedBy(g, tiers, roles, members, names[..k + 1], kind) <==>
              ViolatedBy(g, tiers, roles, members, names[..k], kind)
              || MemberViolated(g, tiers, roles, names[k], members[names[k]], kind)
  {
    assert names[..k + 1] == names[..k] + [names[k]];
  }

  /** The check passes exactly when the graph keeps every rule. */
  method Passes(g: Graph, tiers: TierList, roles: Roles) returns (passes: bool, ghost members: map<string, string>)
    ensures MembersOf(g, members)
    ensures passes <==> forall kind :: !Violated(g, tiers, roles, members, kind)
    ensures (forall kind :: !RuleBroken(g, tiers, roles, kind)) ==> passes
    ensures DistinctNames(g) && passes ==> forall kind :: !RuleBroken(g, tiers, roles, kind)
  {
    var offences;
    offences, members := Offences(g, tiers, roles);
    passes := offences == [];
    if offences != [] {
      assert Reports(offences, offences[0].kind);
    }
  }

  /** No two members share a name, as Cargo demands of a workspace. */
  ghost predicate DistinctNames(g: Graph) {
    forall a, b, name :: MemberNamed(g, a, name) && MemberNamed(g, b, name) ==> a == b
  }

  /** The rules over every member, by its id. */
  ghost predicate Breached(g: Graph, tiers: TierList, roles: Roles, kind: Kind) {
    || (kind.InNoTier? && (exists id :: IsMember(g, id) && Name(g, id) == kind.name) && TierCount(tiers, kind.name) == 0)
    || (kind.InSeveralTiers? && (exists id :: IsMember(g, id) && Name(g, id) == kind.name) && TierCount(tiers, kind.name) > 1)
    || (kind.NotAMember? && (forall id :: IsMember(g, id) ==> Name(g, id) != kind.name)
        && exists k :: 0 <= k < |tiers| && Lists(tiers[k], kind.name))
    || MemberBreach(g, tiers, roles, kind)
  }

  lemma NamedMember(g: Graph, members: map<string, string>, name: string)
    requires MembersOf(g, members)
    ensures name in members <==> exists id :: IsMember(g, id) && Name(g, id) == name
  {
    if name in members { assert IsMember(g, members[name]); }
  }

  /** A member that breaks a rule, by its id. */
  ghost predicate MemberBreach(g: Graph, tiers: TierList, roles: Roles, kind: Kind) {
    exists id :: IsMember(g, id) && MemberViolated(g, tiers, roles, Name(g, id), id, kind)
  }

  lemma ReportsEveryMemberBreach(g: Graph, tiers: TierList, roles: Roles, members: map<string, string>, kind: Kind)
    requires MembersOf(g, members) && DistinctNames(g) && MemberBreach(g, tiers, roles, kind)
    ensures Violated(g, tiers, roles, members, kind)
  {
    var id :| IsMember(g, id) && MemberViolated(g, tiers, roles, Name(g, id), id, kind);
    var name := Name(g, id);
    assert MemberNamed(g, id, name) && MemberNamed(g, members[name], name);
  }

  lemma ReportsOnlyBreaches(g: Graph, tiers: TierList, roles: Roles, members: map<string, string>, kind: Kind)
    requires MembersOf(g, members) && Violated(g, tiers, roles, members, kind)
    ensures Breached(g, tiers, roles, kind)
  {
    NamedMember(g, members, kind.name);
    if !ClassViolated(members, tiers, kind) {
      var name :| name in members && MemberViolated(g, tiers, roles, name, members[name], kind);
      assert IsMember(g, members[name]) && Name(g, members[name]) == name;
    }
  }

  /** Whatever the check reports is a breach; and it misses no breach when no
      two members share a name. */
  lemma ReportsEveryBreach(g: Graph, tiers: TierList, roles: Roles, members: map<string, string>, kind: Kind)
    requires MembersOf(g, members)
    ensures Violated(g, tiers, roles, members, kind) ==> RuleBroken(g, tiers, roles, kind)
    ensures DistinctNames(g) ==> (Violated(g, tiers, roles, members, kind) <==> RuleBroken(g, tiers, roles, kind))
  {
    BreachedMeans(g, tiers, roles, kind);
    if Violated(g, tiers, roles, members, kind) {
      ReportsOnlyBreaches(g, tiers, roles, members, kind);
    } else if DistinctNames(g) && MemberBreach(g, tiers, roles, kind) {
      ReportsEveryMemberBreach(g, tiers, roles, members, kind);
    } else {
      NamedMember(g, members, kind.name);
    }
  }

  lemma EveryKindReported(g: Graph, tiers: TierList, roles: Roles, members: map<string, string>)
    requires MembersOf(g, members)
    ensures forall kind :: Violated(g, tiers, roles, members, kind) ==> RuleBroken(g, tiers, roles, kind)
    ensures DistinctNames(g) ==>
              forall kind :: Violated(g, tiers, roles, members, kind) <==> RuleBroken(g, tiers, roles, kind)
  {
    forall kind
      ensures Violated(g, tiers, roles, members, kind) ==> RuleBroken(g, tiers, roles, kind)
      ensures DistinctNames(g) ==> (Violated(g, tiers, roles, members, kind) <==> RuleBroken(g, tiers, roles, kind))
    {
      ReportsEveryBreach(g, tiers, roles, members, kind);
    }
  }

  // ---- The rules in plain terms ----

  ghost predicate MemberNamed(g: Graph, id: string, name: string) {
    id in g.packages && g.packages[id].member && g.packages[id].name == name
  }

  /** A package is called by its name, one the graph does not hold by its id. */
  ghost predicate Called(g: Graph, id: string, name: string) {
    if id in g.packages then g.packages[id].name == name else id == name
  }

  /** The first list that names a crate is one of `tier`. */
  ghost predicate ClassedIn(tiers: TierList, name: string, tier: Tier) {
    exists k :: 0 <= k < |tiers| && name in tiers[k].1 && tiers[k].0 == tier && forall j :: 0 <= j < k ==> name !in tiers[j].1
  }

  ghost predicate IsBinding(name: string) {
    name == "windows" || name == "windows-core"
  }

  ghost predicate IsRawBinding(name: string) {
    name != "windows" && name != "windows-core" && (name == "winapi" || "windows-" <= name || "windows_" <= name)
  }

  /** A platform-neutral crate may reach only such, a logic crate those and logic
      crates. */
  ghost predicate MayNotReach(tiers: TierList, name: string, other: string) {
    && !ClassedIn(tiers, other, PlatformNeutral)
    && (ClassedIn(tiers, name, PlatformNeutral) || (ClassedIn(tiers, name, Logic) && !ClassedIn(tiers, other, Logic)))
  }

  /** The first role that names a crate does not name `other`, and some role does. */
  ghost predicate OutOfRole(roles: Roles, name: string, other: string) {
    && (exists k :: 0 <= k < |roles| && name in roles[k] && other !in roles[k] && forall j :: 0 <= j < k ==> name !in roles[j])
    && exists k :: 0 <= k < |roles| && other in roles[k]
  }

  ghost predicate MemberBreaks(g: Graph, tiers: TierList, roles: Roles, id: string, kind: Kind) {
    && MemberNamed(g, id, kind.name)
    && match kind
       case ForbiddenTier(name, to) =>
         id != to && Reaches(g, id, to) && exists other :: MemberNamed(g, to, other) && MayNotReach(tiers, name, other)
       case WindowsBinding(name, to) =>
         && (ClassedIn(tiers, name, PlatformNeutral) || ClassedIn(tiers, name, Logic))
         && id != to && Reaches(g, id, to) && exists other :: Called(g, to, other) && IsBinding(other)
       case RawBinding(name, at, dep) =>
         && (ClassedIn(tiers, name, PlatformNeutral) || ClassedIn(tiers, name, Logic))
         && (at == id || (Reaches(g, id, at) && at in g.packages && g.packages[at].member))
         && !Called(g, at, "workspace-hack")
         && DependsOn(g, at, dep) && exists other :: Called(g, dep, other) && IsRawBinding(other)
       case OtherRole(name, to) =>
         id != to && Reaches(g, id, to) && exists other :: MemberNamed(g, to, other) && OutOfRole(roles, name, other)
       case _ => false
  }

  ghost predicate RuleBroken(g: Graph, tiers: TierList, roles: Roles, kind: Kind) {
    match kind
    case InNoTier(name) =>
      (exists id :: MemberNamed(g, id, name)) && forall k :: 0 <= k < |tiers| ==> name !in tiers[k].1
    case InSeveralTiers(name) =>
      (exists id :: MemberNamed(g, id, name)) && exists j, k :: 0 <= j < k < |tiers| && name in tiers[j].1 && name in tiers[k].1
    case NotAMember(name) =>
      (forall id :: !MemberNamed(g, id, name)) && exists k :: 0 <= k < |tiers| && name in tiers[k].1
    case _ => exists id :: MemberBreaks(g, tiers, roles, id, kind)
  }

  lemma {:induction false} TierCountMeans(tiers: TierList, name: string)
    ensures TierCount(tiers, name) == 0 <==> forall k :: 0 <= k < |tiers| ==> name !in tiers[k].1
    ensures TierCount(tiers, name) > 1 <==> exists j, k :: 0 <= j < k < |tiers| && name in tiers[j].1 && name in tiers[k].1
  {
    if tiers != [] {
      var n := |tiers| - 1;
      var before := tiers[..n];
      TierCountMeans(before, name);
      assert forall k :: 0 <= k < n ==> before[k] == tiers[k];
      if TierCount(before, name) > 0 && name in tiers[n].1 {
        var j :| 0 <= j < n && name in before[j].1;
        assert name in tiers[j].1 && name in tiers[n].1;
      }
      if TierCount(before, name) > 1 {
        var j, k :| 0 <= j < k < n && name in before[j].1 && name in before[k].1;
        assert name in tiers[j].1 && name in tiers[k].1;
      }
      if j, k :| 0 <= j < k < |tiers| && name in tiers[j].1 && name in tiers[k].1 {
        assert name in before[j].1;
        assert k < n ==> name in before[k].1;
      }
    }
  }

  lemma TierOfMeans(tiers: TierList, name: string, tier: Tier)
    ensures TierOf(tiers, name) == Some(tier) <==> ClassedIn(tiers, name, tier)
  {
    var found := TierOf(tiers, name);
    if found.Some? {
      var k :| 0 <= k < |tiers| && Lists(tiers[k], name) && tiers[k].0 == found.value
               && forall j :: 0 <= j < k ==> !Lists(tiers[j], name);
      assert ClassedIn(tiers, name, found.value) by {
        assert name in tiers[k].1 && tiers[k].0 == found.value;
      }
      if ClassedIn(tiers, name, tier) {
        var i :| 0 <= i < |tiers| && name in tiers[i].1 && tiers[i].0 == tier && forall j :: 0 <= j < i ==> name !in tiers[j].1;
        assert Lists(tiers[i], name) && i == k;
      }
    }
  }

  lemma ForbiddenMeans(g: Graph, tiers: TierList, name: string, to: string)
    ensures Constrained(TierOf(tiers, name)) && IsMember(g, to) && !Allowed(TierOf(tiers, name), TierOf(tiers, Name(g, to)))
            <==> exists other :: MemberNamed(g, to, other) && MayNotReach(tiers, name, other)
  {
    TierOfMeans(tiers, name, PlatformNeutral);
    TierOfMeans(tiers, name, Logic);
    TierOfMeans(tiers, Name(g, to), PlatformNeutral);
    TierOfMeans(tiers, Name(g, to), Logic);
    assert IsMember(g, to) ==> MemberNamed(g, to, Name(g, to));
  }

  lemma ConstrainedMeans(tiers: TierList, name: string)
    ensures Constrained(TierOf(tiers, name)) <==> ClassedIn(tiers, name, PlatformNeutral) || ClassedIn(tiers, name, Logic)
  {
    TierOfMeans(tiers, name, PlatformNeutral);
    TierOfMeans(tiers, name, Logic);
  }

  lemma CalledMeans(g: Graph, id: string)
    ensures forall name :: Called(g, id, name) <==> name == Name(g, id)
    ensures IsWindowsBinding(Name(g, id)) <==> exists other :: Called(g, id, other) && IsBinding(other)
    ensures IsRawWindowsBinding(Name(g, id)) <==> exists other :: Called(g, id, other) && IsRawBinding(other)
  {
    assert Called(g, id, Name(g, id));
  }

  lemma FirstRole(roles: Roles, name: string, k: nat)
    requires k < |roles| && name in roles[k] && forall j :: 0 <= j < k ==> name !in roles[j]
    ensures RoleOf(roles, name) == Some(roles[k])
  {
    assert FirstNaming(roles, name, k);
    var i :| 0 <= i < |roles| && FirstNaming(roles, name, i) && RoleOf(roles, name).value == roles[i];
    OneFirst(roles, name, i, k);
  }

  lemma OneFirst(roles: Roles, name: string, i: nat, k: nat)
    requires FirstNaming(roles, name, i) && FirstNaming(roles, name, k)
    ensures i == k
  {
  }

  lemma OtherRoleMeans(g: Graph, roles: Roles, name: string, to: string)
    ensures RoleOf(roles, name).Some? && IsMember(g, to) && Name(g, to) !in RoleOf(roles, name).value
            && RoleOf(roles, Name(g, to)).Some?
            <==> exists other :: MemberNamed(g, to, other) && OutOfRole(roles, name, other)
  {
    assert IsMember(g, to) ==> MemberNamed(g, to, Name(g, to));
    OutOfRoleMeans(roles, name, Name(g, to));
  }

  lemma OutOfRoleMeans(roles: Roles, name: string, other: string)
    ensures RoleOf(roles, name).Some? && other !in RoleOf(roles, name).value && RoleOf(roles, other).Some?
            <==> OutOfRole(roles, name, other)
  {
    if RoleOf(roles, name).Some? {
      var i :| 0 <= i < |roles| && FirstNaming(roles, name, i) && RoleOf(roles, name).value == roles[i];
      assert name in roles[i];
    }
    forall k | 0 <= k < |roles| && name in roles[k] && (forall j :: 0 <= j < k ==> name !in roles[j])
      ensures RoleOf(roles, name) == Some(roles[k])
    {
      FirstRole(roles, name, k);
    }
  }

  lemma ForbiddenBreaks(g: Graph, tiers: TierList, roles: Roles, id: string, name: string, to: string)
    ensures IsMember(g, id) && MemberViolated(g, tiers, roles, Name(g, id), id, ForbiddenTier(name, to))
            <==> MemberBreaks(g, tiers, roles, id, ForbiddenTier(name, to))
  {
    ForbiddenMeans(g, tiers, name, to);
  }

  lemma BindingBreaks(g: Graph, tiers: TierList, roles: Roles, id: string, name: string, to: string)
    ensures IsMember(g, id) && MemberViolated(g, tiers, roles, Name(g, id), id, WindowsBinding(name, to))
            <==> MemberBreaks(g, tiers, roles, id, WindowsBinding(name, to))
  {
    ConstrainedMeans(tiers, name);
    CalledMeans(g, to);
  }

  lemma RawBreaks(g: Graph, tiers: TierList, roles: Roles, id: string, name: string, at: string, dep: string)
    ensures IsMember(g, id) && MemberViolated(g, tiers, roles, Name(g, id), id, RawBinding(name, at, dep))
            <==> MemberBreaks(g, tiers, roles, id, RawBinding(name, at, dep))
  {
    ConstrainedMeans(tiers, name);
    CalledMeans(g, at);
    CalledMeans(g, dep);
  }

  lemma RoleBreaks(g: Graph, tiers: TierList, roles: Roles, id: string, name: string, to: string)
    ensures IsMember(g, id) && MemberViolated(g, tiers, roles, Name(g, id), id, OtherRole(name, to))
            <==> MemberBreaks(g, tiers, roles, id, OtherRole(name, to))
  {
    OtherRoleMeans(g, roles, name, to);
  }

  /** The rules over one member, as checked and in plain terms. */
  lemma BreaksMeans(g: Graph, tiers: TierList, roles: Roles, id: string, kind: Kind)
    ensures IsMember(g, id) && MemberViolated(g, tiers, roles, Name(g, id), id, kind)
            <==> MemberBreaks(g, tiers, roles, id, kind)
  {
    match kind
    case ForbiddenTier(name, to) => ForbiddenBreaks(g, tiers, roles, id, name, to);
    case WindowsBinding(name, to) => BindingBreaks(g, tiers, roles, id, name, to);
    case RawBinding(name, at, dep) => RawBreaks(g, tiers, roles, id, name, at, dep);
    case OtherRole(name, to) => RoleBreaks(g, tiers, roles, id, name, to);
    case _ =>
  }

  /** What the check looks for is every breach of the rules, in plain terms. */
  lemma BreachedMeans(g: Graph, tiers: TierList, roles: Roles, kind: Kind)
    ensures Breached(g, tiers, roles, kind) <==> RuleBroken(g, tiers, roles, kind)
  {
    TierCountMeans(tiers, kind.name);
    assert forall id :: MemberNamed(g, id, kind.name) <==> IsMember(g, id) && Name(g, id) == kind.name;
    assert forall k :: 0 <= k < |tiers| ==> (Lists(tiers[k], kind.name) <==> kind.name in tiers[k].1);
    forall id ensures IsMember(g, id) && MemberViolated(g, tiers, roles, Name(g, id), id, kind)
                      <==> MemberBreaks(g, tiers, roles, id, kind)
    {
      BreaksMeans(g, tiers, roles, id, kind);
    }
  }

  /** Two members named "a", of which only the first depends on `windows`. */
  const SHARED_NAME: Graph :=
    Graph(map["1" := Package("a", true), "2" := Package("a", true), "w" := Package("windows", false)],
          map["1" := ["w"]], map[])

  const ONE_TIER: TierList := [(PlatformNeutral, ["a"])]

  lemma BeyondHasEdges(g: Graph, id: string, to: string)
    ensures Beyond(g, id, to) ==> Edges(g, id) != []
  {
    if Beyond(g, id, to) {
      var path :| Path(g, path, id, to);
      assert path[1] in Edges(g, path[0]);
    }
  }

  lemma NoEdgesNoBreach(g: Graph, tiers: TierList, roles: Roles, name: string, id: string, kind: Kind)
    requires Edges(g, id) == []
    ensures !MemberViolated(g, tiers, roles, name, id, kind)
  {
    forall to ensures !Beyond(g, id, to) { BeyondHasEdges(g, id, to); }
  }

  lemma OneTierOfA()
    ensures TierCount(ONE_TIER, "a") == 1 && TierOf(ONE_TIER, "a") == Some(PlatformNeutral)
    ensures forall name :: name != "a" ==> !Lists(ONE_TIER[0], name)
  {
  }

  lemma SharedNameBreached()
    ensures RuleBroken(SHARED_NAME, ONE_TIER, [], WindowsBinding("a", "w"))
  {
    var g := SHARED_NAME;
    OneTierOfA();
    assert Path(g, ["1", "w"], "1", "w");
    assert IsMember(g, "1") && TierViolated(g, ONE_TIER, Name(g, "1"), "1", WindowsBinding("a", "w"));
    BreachedMeans(g, ONE_TIER, [], WindowsBinding("a", "w"));
  }

  /** Of two members with one name the check looks at the last only, so a
      breach by the other goes unreported. */
  lemma SharedNameHidesBreach(members: map<string, string>)
    requires MembersOf(SHARED_NAME, members)
    ensures RuleBroken(SHARED_NAME, ONE_TIER, [], WindowsBinding("a", "w"))
    ensures forall kind :: !Violated(SHARED_NAME, ONE_TIER, [], members, kind)
  {
    var g := SHARED_NAME;
    SharedNameBreached();
    OneTierOfA();
    assert members["a"] == "2" by {
      assert Name(g, "2") == "a" && IsMember(g, "2");
      assert !StringLe("2", "1");
    }
    assert forall name :: name in members ==> name == "a";
    forall kind ensures !Violated(g, ONE_TIER, [], members, kind) {
      NoEdgesNoBreach(g, ONE_TIER, [], "a", "2", kind);
    }
  }
}
