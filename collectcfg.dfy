/** The bookkeeping of `pkg/collectcfg/fetch.go`: which services a run
    processes and how each is routed, the host list, the clean-up guard, the
    tree-creation commands, the podman container table and its merge into
    the service table.

    The package-level `config` is the field `services` of class `Fetcher`.
    Every external command (ssh, podman, oc, mkdir, rsync) is left out or
    enters as a function from the command line to its outcome; the pull
    functions are represented by the calls the routing makes. */
module CollectCfg {
  import opened GoStrings
  import opened Results
  import opened CommonUtils
  import GodiffMaps

  /** One entry of the service table (`common.Service`). */
  datatype Service = Service(
    enable: bool,
    podmanId: string,
    podmanImage: string,
    podmanName: string,
    podName: string,
    containerName: string,
    strictPodNameMatch: bool,
    paths: seq<string>,
    hosts: seq<string>,
    serviceCommand: string,
    catOutput: bool,
    configMapping: map<string, string>)

  /** Go's zero `Service{}`. */
  const ZeroService := Service(false, "", "", "", "", "", false, [], [], "", false, map[])

  // ---------------------------------------------------------------------
  // Filters

  /** A service (or container name) is processed when no filter is given or
      when the filters name it. */
  predicate Selected(name: string, filters: seq<string>) {
    |filters| == 0 || name in filters
  }

  /** The `filterMap` loop: the set of the filters. */
  method FilterSet(filters: seq<string>) returns (filterMap: set<string>)
    ensures forall f :: f in filterMap <==> f in filters
  {
    filterMap := {};
    for i := 0 to |filters|
      invariant forall f :: f in filterMap <==> f in filters[..i]
    {
      assert filters[..i + 1] == filters[..i] + [filters[i]];
      filterMap := filterMap + {filters[i]};
    }
    assert filters[..|filters|] == filters;
  }

  /** A non-repeating listing of the keys of a set, for the keys a loop
      that returned early did not reach. */
  lemma SomeEnumeration(keys: set<string>) returns (order: seq<string>)
    ensures GodiffMaps.Enumerates(order, keys)
    decreases |keys|
  {
    if keys == {} {
      order := [];
    } else {
      var k :| k in keys;
      var rest := SomeEnumeration(keys - {k});
      NoDupAppend(rest, k);
      order := rest + [k];
    }
  }

  // ---------------------------------------------------------------------
  // PullConfigs: routing

  /** The pull call a selected service gets. */
  datatype Pull =
    | FromHosts(service: string, configDir: string, sshCmd: string, undercloud: string)  // PullConfigFromHosts
    | FromContainer(service: string, tripleo: bool, configDir: string, fullCmd: string)  // PullConfig

  /** A TripleO service without a podman name or id is pulled from its
      hosts; every other service from its container, over ssh to the
      undercloud. */
  function Route(name: string, svc: Service, configDir: string, tripleo: bool, sshCmd: string, undercloud: string): (p: Pull)
    ensures p.service == name
    ensures p.FromHosts? <==> tripleo && (svc.podmanName == "" || svc.podmanId == "")
    ensures p.FromContainer? ==> p.fullCmd == sshCmd + " " + undercloud && p.tripleo == tripleo
  {
    if tripleo && (svc.podmanName == "" || svc.podmanId == "") then FromHosts(name, configDir, sshCmd, undercloud)
    else FromContainer(name, tripleo, configDir, sshCmd + " " + undercloud)
  }

  /** The calls made for the services in `order`. */
  function Plan(order: seq<string>, services: map<string, Service>, filters: seq<string>,
                configDir: string, tripleo: bool, sshCmd: string, undercloud: string): seq<Pull>
    requires forall s | s in order :: s in services
  {
    if order == [] then []
    else
      var s := order[|order| - 1];
      Plan(order[..|order| - 1], services, filters, configDir, tripleo, sshCmd, undercloud)
      + (if Selected(s, filters) then [Route(s, services[s], configDir, tripleo, sshCmd, undercloud)] else [])
  }

  /** The services the calls are for. */
  function Names(plan: seq<Pull>): (names: seq<string>)
    ensures |names| == |plan|
  {
    seq(|plan|, i requires 0 <= i < |plan| => plan[i].service)
  }

  lemma PlanStep(order: seq<string>, s: string, services: map<string, Service>, filters: seq<string>,
                 configDir: string, tripleo: bool, sshCmd: string, undercloud: string)
    requires forall x | x in order :: x in services
    requires s in services
    ensures Plan(order + [s], services, filters, configDir, tripleo, sshCmd, undercloud)
      == Plan(order, services, filters, configDir, tripleo, sshCmd, undercloud)
         + (if Selected(s, filters) then [Route(s, services[s], configDir, tripleo, sshCmd, undercloud)] else [])
  {
    assert (order + [s])[..|order|] == order;
  }

  /** Each selected service of `order` gets exactly one call, its route,
      and no other service gets one. */
  lemma {:induction false} PlanRoutesOnce(order: seq<string>, services: map<string, Service>, filters: seq<string>,
                                          configDir: string, tripleo: bool, sshCmd: string, undercloud: string)
    requires forall s | s in order :: s in services
    requires NoDup(order)
    ensures var plan := Plan(order, services, filters, configDir, tripleo, sshCmd, undercloud);
      NoDup(Names(plan))
      && (forall s :: s in Names(plan) <==> s in order && Selected(s, filters))
      && (forall i | 0 <= i < |plan| :: plan[i].service in services && plan[i] == Route(plan[i].service, services[plan[i].service], configDir, tripleo, sshCmd, undercloud))
  {
    if order != [] {
      var init := order[..|order| - 1];
      var s := order[|order| - 1];
      assert forall x | x in init :: x in order;
      assert NoDup(init);
      assert s !in init;
      PlanRoutesOnce(init, services, filters, configDir, tripleo, sshCmd, undercloud);
      var p0 := Plan(init, services, filters, configDir, tripleo, sshCmd, undercloud);
      var plan := Plan(order, services, filters, configDir, tripleo, sshCmd, undercloud);
      assert forall x | x in order :: x in init || x == s;
      if Selected(s, filters) {
        var r := Route(s, services[s], configDir, tripleo, sshCmd, undercloud);
        assert plan == p0 + [r];
        assert Names(plan) == Names(p0) + [s];
        NoDupAppend(Names(p0), s);
      } else {
        assert plan == p0;
      }
    }
  }

  // ---------------------------------------------------------------------
  // GetListHosts

  /** The hosts of the services in `order`, one list after the other. */
  function AllHosts(order: seq<string>, services: map<string, Service>): seq<string>
    requires forall s | s in order :: s in services
  {
    if order == [] then [] else AllHosts(order[..|order| - 1], services) + services[order[|order| - 1]].hosts
  }

  /** `hosts` extended by every element of `hs` not yet in it, in order. */
  function AddNew(hosts: seq<string>, hs: seq<string>): seq<string> {
    if hs == [] then hosts
    else
      var acc := AddNew(hosts, hs[..|hs| - 1]);
      var h := hs[|hs| - 1];
      if h in acc then acc else acc + [h]
  }

  /** Adding keeps the list free of duplicates and as a prefix, and adds
      exactly the new elements. */
  lemma {:induction false} AddNewFacts(hosts: seq<string>, hs: seq<string>)
    requires NoDup(hosts)
    ensures NoDup(AddNew(hosts, hs))
    ensures hosts <= AddNew(hosts, hs)
    ensures forall h :: h in AddNew(hosts, hs) <==> h in hosts || h in hs
  {
    if hs != [] {
      var init := hs[..|hs| - 1];
      var h := hs[|hs| - 1];
      AddNewFacts(hosts, init);
      var acc := AddNew(hosts, init);
      if h !in acc {
        NoDupAppend(acc, h);
        assert (acc + [h])[..|hosts|] == acc[..|hosts|];
      }
      assert forall x | x in hs :: x in init || x == h;
      assert forall x | x in init :: x in hs;
    }
  }

  lemma {:induction false} AddNewAppend(hosts: seq<string>, a: seq<string>, b: seq<string>)
    ensures AddNew(hosts, a + b) == AddNew(AddNew(hosts, a), b)
  {
    if b == [] {
      assert a + b == a;
    } else {
      assert (a + b)[..|a + b| - 1] == a + b[..|b| - 1];
      AddNewAppend(hosts, a, b[..|b| - 1]);
    }
  }

  /** A host is listed exactly when some service of `order` has it. */
  lemma {:induction false} AllHostsMembers(order: seq<string>, services: map<string, Service>, h: string)
    requires forall s | s in order :: s in services
    ensures h in AllHosts(order, services) <==> exists s | s in order :: h in services[s].hosts
  {
    if order != [] {
      var init := order[..|order| - 1];
      var last := order[|order| - 1];
      assert forall x | x in init :: x in order;
      AllHostsMembers(init, services, h);
      if exists s | s in order :: h in services[s].hosts {
        var s :| s in order && h in services[s].hosts;
        if s != last {
          assert s in init;
        }
      }
    }
  }

  /** The inner loop of `GetListHosts`: each host not yet listed is
      appended. */
  method AddHosts(hosts: seq<string>, hs: seq<string>) returns (r: seq<string>)
    ensures r == AddNew(hosts, hs)
  {
    r := hosts;
    for j := 0 to |hs|
      invariant r == AddNew(hosts, hs[..j])
    {
      assert hs[..j + 1][..j] == hs[..j];
      var found := StringInSlice(hs[j], r);
      if !found {
        r := r + [hs[j]];
      }
    }
    assert hs[..|hs|] == hs;
  }

  // ---------------------------------------------------------------------
  // CleanUp

  /** What `CleanUp` does: the error it returns and the command it issues. */
  datatype CleanUpOutcome = CleanUpOutcome(error: Option<string>, command: Option<string>)

  /** `CleanUp`: an empty path or the root is refused with an error and no
      command; any other path is removed with `rm -rf` over ssh. */
  function CleanUp(remotePath: string, sshCmd: string): (r: CleanUpOutcome)
    ensures r.error.Some? <==> remotePath == "" || remotePath == "/"
    ensures r.error.Some? <==> r.command.None?
    ensures r.error.Some? ==> r.error.value == "Clean up Error - Empty or wrong path: " + remotePath
                                               + ". Please make sure you provided a correct path."
    ensures r.command.Some? ==> HasPrefix(r.command.value, sshCmd) && HasSuffix(r.command.value, " rm -rf " + remotePath)
  {
    if remotePath == "" || remotePath == "/" then
      CleanUpOutcome(Some("Clean up Error - Empty or wrong path: " + remotePath + ". Please make sure you provided a correct path."), None)
    else
      var cmd := sshCmd + " rm -rf " + remotePath;
      assert cmd[..|sshCmd|] == sshCmd;
      assert cmd[|cmd| - |" rm -rf " + remotePath|..] == " rm -rf " + remotePath;
      CleanUpOutcome(None, Some(cmd))
  }

  /** No removal ever targets the empty path or the root. */
  lemma CleanUpNeverRemovesRoot(remotePath: string, sshCmd: string)
    ensures CleanUp(remotePath, sshCmd).command.Some? ==> remotePath != "" && remotePath != "/"
    ensures CleanUp("/", sshCmd).command.None? && CleanUp("", sshCmd).command.None?
  {
  }

  // ---------------------------------------------------------------------
  // CreateServicesTrees

  /** The `mkdir -p` command of `CreateServiceTree`; `dir` is `path.Dir`. */
  function TreeCommand(serviceName: string, path: string, configDir: string, sshCmd: string, host: string,
                       dir: string -> string): string {
    sshCmd + " mkdir -p " + (configDir + "/" + serviceName + "/" + host + "/" + dir(path))
  }

  /** One command per path of the service, for one host. */
  function HostTreeCommands(name: string, paths: seq<string>, configDir: string, fullCmd: string, host: string,
                            dir: string -> string): (cmds: seq<string>)
    ensures |cmds| == |paths|
  {
    seq(|paths|, i requires 0 <= i < |paths| => TreeCommand(name, paths[i], configDir, fullCmd, host, dir))
  }

  /** The commands for each host in turn, over ssh to that host. */
  function HostsTreeCommands(name: string, paths: seq<string>, hosts: seq<string>, configDir: string, sshCmd: string,
                             dir: string -> string): seq<string>
  {
    if hosts == [] then []
    else
      var h := hosts[|hosts| - 1];
      HostsTreeCommands(name, paths, hosts[..|hosts| - 1], configDir, sshCmd, dir)
      + HostTreeCommands(name, paths, configDir, sshCmd + " " + h, h, dir)
  }

  /** A service with hosts gets its tree on every host; one without gets it
      on the undercloud, under an empty host directory. */
  function ServiceTreeCommands(name: string, svc: Service, configDir: string, sshCmd: string, undercloud: string,
                               dir: string -> string): seq<string>
  {
    if |svc.hosts| != 0 then HostsTreeCommands(name, svc.paths, svc.hosts, configDir, sshCmd, dir)
    else HostTreeCommands(name, svc.paths, configDir, sshCmd + " " + undercloud, "", dir)
  }

  /** The commands for the selected services of `order`. */
  function TreeCommands(order: seq<string>, services: map<string, Service>, filters: seq<string>, configDir: string,
                        sshCmd: string, undercloud: string, dir: string -> string): seq<string>
    requires forall s | s in order :: s in services
  {
    if order == [] then []
    else
      var s := order[|order| - 1];
      TreeCommands(order[..|order| - 1], services, filters, configDir, sshCmd, undercloud, dir)
      + (if Selected(s, filters) then ServiceTreeCommands(s, services[s], configDir, sshCmd, undercloud, dir) else [])
  }

  /** A service with hosts gets one command per host and path, one without
      one per path. */
  lemma {:induction false} HostsTreeCount(name: string, paths: seq<string>, hosts: seq<string>, configDir: string,
                                          sshCmd: string, dir: string -> string)
    ensures |HostsTreeCommands(name, paths, hosts, configDir, sshCmd, dir)| == |hosts| * |paths|
  {
    if hosts != [] {
      HostsTreeCount(name, paths, hosts[..|hosts| - 1], configDir, sshCmd, dir);
      assert (|hosts| - 1) * |paths| + |paths| == |hosts| * |paths|;
    }
  }

  lemma ServiceTreeCount(name: string, svc: Service, configDir: string, sshCmd: string, undercloud: string,
                         dir: string -> string)
    ensures |ServiceTreeCommands(name, svc, configDir, sshCmd, undercloud, dir)|
            == (if |svc.hosts| != 0 then |svc.hosts| else 1) * |svc.paths|
  {
    HostsTreeCount(name, svc.paths, svc.hosts, configDir, sshCmd, dir);
  }

  /** Running commands in order and stopping at the first failure: the
      failing command's outcome, or an empty success. */
  function RunAll(cmds: seq<string>, exec: string -> ExecResult): (r: ExecResult)
    ensures !r.failed ==> r == ExecResult("", false)
  {
    if cmds == [] then ExecResult("", false)
    else if exec(cmds[0]).failed then exec(cmds[0])
    else RunAll(cmds[1..], exec)
  }

  /** A run fails exactly when some command fails, and then with the
      outcome of the first one that does. */
  lemma {:induction false} RunAllFirstFailure(cmds: seq<string>, exec: string -> ExecResult)
    ensures RunAll(cmds, exec).failed <==> exists i | 0 <= i < |cmds| :: exec(cmds[i]).failed
    ensures RunAll(cmds, exec).failed ==>
      exists i | 0 <= i < |cmds| :: exec(cmds[i]).failed && RunAll(cmds, exec) == exec(cmds[i])
                                   && forall j | 0 <= j < i :: !exec(cmds[j]).failed
  {
    if cmds != [] && !exec(cmds[0]).failed {
      RunAllFirstFailure(cmds[1..], exec);
      if exists i | 0 <= i < |cmds| :: exec(cmds[i]).failed {
        var i :| 0 <= i < |cmds| && exec(cmds[i]).failed;
        assert cmds[1..][i - 1] == cmds[i];
      }
      if RunAll(cmds, exec).failed {
        var i :| 0 <= i < |cmds[1..]| && exec(cmds[1..][i]).failed && RunAll(cmds[1..], exec) == exec(cmds[1..][i])
                 && forall j | 0 <= j < i :: !exec(cmds[1..][j]).failed;
        assert forall j | 1 <= j < i + 1 :: cmds[j] == cmds[1..][j - 1];
        assert exec(cmds[i + 1]).failed && RunAll(cmds, exec) == exec(cmds[i + 1]);
      }
    }
  }

  /** Running `a` then `b` stops in `a` when `a` fails. */
  lemma {:induction false} RunAllAppend(a: seq<string>, b: seq<string>, exec: string -> ExecResult)
    ensures RunAll(a + b, exec) == if RunAll(a, exec).failed then RunAll(a, exec) else RunAll(b, exec)
  {
    if a != [] {
      assert (a + b)[0] == a[0];
      assert (a + b)[1..] == a[1..] + b;
      RunAllAppend(a[1..], b, exec);
    } else {
      assert a + b == b;
    }
  }

  // ---------------------------------------------------------------------
  // buildPodmanInfo

  /** A decoded entry of `podman ps --format json`. */
  datatype PodmanContainer = PodmanContainer(image: string, id: string, names: seq<string>)

  /** The table row of a container: its 12-char short id and its image. */
  function Info(c: PodmanContainer): map<string, string>
    requires |c.id| >= 12
  {
    map["containerid" := c.id[..12], "image" := c.image]
  }

  /** The `(name, container)` pairs the loops visit and keep, in order. */
  function NamePairs(c: PodmanContainer, names: seq<string>, filters: seq<string>): seq<(string, PodmanContainer)> {
    if names == [] then []
    else
      var n := names[|names| - 1];
      NamePairs(c, names[..|names| - 1], filters) + (if Selected(n, filters) then [(n, c)] else [])
  }

  function Listed(containers: seq<PodmanContainer>, filters: seq<string>): seq<(string, PodmanContainer)> {
    if containers == [] then []
    else
      var c := containers[|containers| - 1];
      Listed(containers[..|containers| - 1], filters) + NamePairs(c, c.names, filters)
  }

  /** Every kept container's id is long enough to be cut. */
  predicate LongIds(ps: seq<(string, PodmanContainer)>) {
    forall i | 0 <= i < |ps| :: |ps[i].1.id| >= 12
  }

  /** The table the pairs give, later pairs overwriting earlier ones. */
  function FillInfo(ps: seq<(string, PodmanContainer)>): map<string, map<string, string>>
    requires LongIds(ps)
  {
    if ps == [] then map[]
    else
      var p := ps[|ps| - 1];
      FillInfo(ps[..|ps| - 1])[p.0 := Info(p.1)]
  }

  /** The message of the panic `container.ID[:12]` raises on a short id. */
  const ShortIdPanic := "slice bounds out of range [:12]"

  /** `buildPodmanInfo` after decoding: a decoding error is returned, a
      short id of a kept name panics, and otherwise every kept name maps to
      the row of its container. */
  function PodmanInfo(decoded: Result<seq<PodmanContainer>>, filters: seq<string>): Result<map<string, map<string, string>>> {
    if !decoded.Ok? then Err(ErrorText(decoded))
    else
      var ps := Listed(decoded.value, filters);
      if LongIds(ps) then Ok(FillInfo(ps)) else Panic(ShortIdPanic)
  }

  /** The pairs kept from one container are its selected names. */
  lemma {:induction false} NamePairsMembers(c: PodmanContainer, names: seq<string>, filters: seq<string>, n: string)
    ensures (exists i | 0 <= i < |NamePairs(c, names, filters)| :: NamePairs(c, names, filters)[i].0 == n)
            <==> n in names && Selected(n, filters)
    ensures forall i | 0 <= i < |NamePairs(c, names, filters)| :: NamePairs(c, names, filters)[i].1 == c
  {
    if names != [] {
      var init := names[..|names| - 1];
      NamePairsMembers(c, init, filters, n);
      var a := NamePairs(c, init, filters);
      var ps := NamePairs(c, names, filters);
      assert forall i | 0 <= i < |a| :: ps[i] == a[i];
      assert forall x | x in names :: x in init || x == names[|names| - 1];
      assert forall x | x in init :: x in names;
      if n in names && Selected(n, filters) && n !in init {
        assert ps[|a|].0 == n;
      }
      if exists i | 0 <= i < |ps| :: ps[i].0 == n {
        var i :| 0 <= i < |ps| && ps[i].0 == n;
        var last := names[|names| - 1];
        assert ps == a + (if Selected(last, filters) then [(last, c)] else []);
        if i < |a| {
          assert a[i].0 == n;
          assert exists k | 0 <= k < |NamePairs(c, init, filters)| :: NamePairs(c, init, filters)[k].0 == n;
          assert n in init;
        } else {
          assert n == names[|names| - 1] && Selected(n, filters);
        }
      }
    }
  }

  /** The container has a name the filters keep. */
  predicate HasKeptName(c: PodmanContainer, filters: seq<string>) {
    exists n | n in c.names :: Selected(n, filters)
  }

  lemma NamePairsLongIds(c: PodmanContainer, filters: seq<string>)
    ensures LongIds(NamePairs(c, c.names, filters)) <==> !HasKeptName(c, filters) || |c.id| >= 12
  {
    var ps := NamePairs(c, c.names, filters);
    if HasKeptName(c, filters) {
      var n :| n in c.names && Selected(n, filters);
      NamePairsMembers(c, c.names, filters, n);
    }
    if ps != [] {
      NamePairsMembers(c, c.names, filters, ps[0].0);
    }
    NamePairsMembers(c, c.names, filters, "");
  }

  lemma {:induction false} ListedAppend(a: seq<PodmanContainer>, b: seq<PodmanContainer>, filters: seq<string>)
    ensures Listed(a + b, filters) == Listed(a, filters) + Listed(b, filters)
  {
    if b == [] {
      assert a + b == a;
    } else {
      var init := b[..|b| - 1];
      var c := b[|b| - 1];
      assert (a + b)[..|a + b| - 1] == a + init;
      assert (a + b)[|a + b| - 1] == c;
      ListedAppend(a, init, filters);
      assert Listed(a + b, filters) == Listed(a + init, filters) + NamePairs(c, c.names, filters);
      assert Listed(b, filters) == Listed(init, filters) + NamePairs(c, c.names, filters);
    }
  }

  /** A short id makes the table panic exactly when its container has a
      kept name. */
  lemma {:induction false} ListedLongIds(cs: seq<PodmanContainer>, filters: seq<string>)
    ensures LongIds(Listed(cs, filters)) <==>
      forall j | 0 <= j < |cs| && HasKeptName(cs[j], filters) :: |cs[j].id| >= 12
  {
    if cs != [] {
      var init := cs[..|cs| - 1];
      var c := cs[|cs| - 1];
      ListedLongIds(init, filters);
      NamePairsLongIds(c, filters);
      var a := Listed(init, filters);
      var b := NamePairs(c, c.names, filters);
      assert Listed(cs, filters) == a + b;
      assert LongIds(a + b) <==> LongIds(a) && LongIds(b) by {
        assert forall i | 0 <= i < |a| :: (a + b)[i] == a[i];
        assert forall i | 0 <= i < |b| :: (a + b)[|a| + i] == b[i];
      }
      assert forall j | 0 <= j < |init| :: init[j] == cs[j];
    }
  }

  /** A name is kept exactly when the filters select it and some container
      carries it. */
  lemma {:induction false} ListedMembers(cs: seq<PodmanContainer>, filters: seq<string>, n: string)
    ensures (exists i | 0 <= i < |Listed(cs, filters)| :: Listed(cs, filters)[i].0 == n)
            <==> Selected(n, filters) && exists j | 0 <= j < |cs| :: n in cs[j].names
  {
    if cs != [] {
      var init := cs[..|cs| - 1];
      var c := cs[|cs| - 1];
      ListedMembers(init, filters, n);
      NamePairsMembers(c, c.names, filters, n);
      var a := Listed(init, filters);
      var b := NamePairs(c, c.names, filters);
      var ps := Listed(cs, filters);
      assert ps == a + b;
      if exists i | 0 <= i < |ps| :: ps[i].0 == n {
        var i :| 0 <= i < |ps| && ps[i].0 == n;
        if i < |a| {
          assert a[i].0 == n;
          assert exists k | 0 <= k < |Listed(init, filters)| :: Listed(init, filters)[k].0 == n;
          var j :| 0 <= j < |init| && n in init[j].names;
          assert cs[j] == init[j];
        } else {
          assert b[i - |a|].0 == n;
          assert exists k | 0 <= k < |NamePairs(c, c.names, filters)| :: NamePairs(c, c.names, filters)[k].0 == n;
          assert n in cs[|cs| - 1].names;
        }
      }
      if Selected(n, filters) && exists j | 0 <= j < |cs| :: n in cs[j].names {
        var j :| 0 <= j < |cs| && n in cs[j].names;
        if j < |init| {
          assert n in init[j].names;
          var i :| 0 <= i < |a| && a[i].0 == n;
          assert ps[i] == a[i];
        } else {
          var i :| 0 <= i < |b| && b[i].0 == n;
          assert ps[|a| + i] == b[i];
        }
      }
    }
  }

  lemma {:induction false} FillInfoAppend(a: seq<(string, PodmanContainer)>, b: seq<(string, PodmanContainer)>)
    requires LongIds(a) && LongIds(b)
    ensures LongIds(a + b)
    ensures FillInfo(a + b) == FillInfo(a) + FillInfo(b)
  {
    if b == [] {
      assert a + b == a;
    } else {
      var init := b[..|b| - 1];
      var p := b[|b| - 1];
      assert LongIds(init);
      assert (a + b)[..|a + b| - 1] == a + init;
      FillInfoAppend(a, init);
      assert a + b == (a + init) + [p];
      assert LongIds(a + b) by {
        forall i | 0 <= i < |a + b| ensures |(a + b)[i].1.id| >= 12 {
          if i < |a| + |init| {
            assert (a + b)[i] == (a + init)[i];
          }
        }
      }
      assert FillInfo(a + b) == FillInfo(a + init)[p.0 := Info(p.1)];
      assert FillInfo(b) == FillInfo(init)[p.0 := Info(p.1)];
      UnionUpdate(FillInfo(a), FillInfo(init), p.0, Info(p.1));
    }
  }

  /** Updating a union updates its right operand. */
  lemma UnionUpdate<K, V>(m1: map<K, V>, m2: map<K, V>, k: K, v: V)
    ensures (m1 + m2)[k := v] == m1 + m2[k := v]
  {
  }

  lemma {:induction false} FillInfoKeys(ps: seq<(string, PodmanContainer)>, n: string)
    requires LongIds(ps)
    ensures n in FillInfo(ps) <==> exists i | 0 <= i < |ps| :: ps[i].0 == n
  {
    if ps != [] {
      var init := ps[..|ps| - 1];
      FillInfoKeys(init, n);
      if n in FillInfo(init) {
        var i :| 0 <= i < |init| && init[i].0 == n;
        assert ps[i] == init[i];
      }
      if exists i | 0 <= i < |ps| :: ps[i].0 == n {
        var i :| 0 <= i < |ps| && ps[i].0 == n;
        if i < |init| {
          assert init[i] == ps[i];
        }
      }
    }
  }

  /** Pairs that all carry one container give that container's row. */
  lemma {:induction false} FillInfoOne(ps: seq<(string, PodmanContainer)>, c: PodmanContainer)
    requires LongIds(ps) && |c.id| >= 12
    requires forall i | 0 <= i < |ps| :: ps[i].1 == c
    ensures forall k | k in FillInfo(ps) :: FillInfo(ps)[k] == Info(c)
  {
    if ps != [] {
      FillInfoOne(ps[..|ps| - 1], c);
    }
  }

  /** When the table is built, its keys are the kept names that some
      container carries. */
  lemma PodmanInfoKeys(cs: seq<PodmanContainer>, filters: seq<string>, n: string)
    requires PodmanInfo(Ok(cs), filters).Ok?
    ensures n in PodmanInfo(Ok(cs), filters).value <==> Selected(n, filters) && exists j | 0 <= j < |cs| :: n in cs[j].names
  {
    assert PodmanInfo(Ok(cs), filters).value == FillInfo(Listed(cs, filters));
    FillInfoKeys(Listed(cs, filters), n);
    ListedMembers(cs, filters, n);
  }

  /** The table panics exactly when a container with a kept name has an id
      shorter than 12 characters. */
  lemma PodmanInfoPanics(cs: seq<PodmanContainer>, filters: seq<string>)
    ensures PodmanInfo(Ok(cs), filters).Panic? <==>
      exists j | 0 <= j < |cs| :: HasKeptName(cs[j], filters) && |cs[j].id| < 12
  {
    ListedLongIds(cs, filters);
  }

  /** In pairs `a`, then pairs of container `c` holding `n`, then pairs
      without `n`, the row of `n` is the one of `c`. */
  lemma LastPairsWin(a: seq<(string, PodmanContainer)>, m: seq<(string, PodmanContainer)>,
                     z: seq<(string, PodmanContainer)>, c: PodmanContainer, n: string)
    requires LongIds(a) && LongIds(m) && LongIds(z) && |c.id| >= 12
    requires forall i | 0 <= i < |m| :: m[i].1 == c
    requires exists i | 0 <= i < |m| :: m[i].0 == n
    requires forall i | 0 <= i < |z| :: z[i].0 != n
    ensures LongIds(a + m + z)
    ensures n in FillInfo(a + m + z) && FillInfo(a + m + z)[n] == Info(c)
  {
    FillInfoAppend(a, m);
    FillInfoAppend(a + m, z);
    FillInfoKeys(m, n);
    FillInfoOne(m, c);
    FillInfoKeys(z, n);
  }

  /** The pairs of the containers before `j`, of container `j`, and of
      those after it. */
  lemma ListedAround(cs: seq<PodmanContainer>, filters: seq<string>, j: nat)
    requires j < |cs|
    ensures Listed(cs, filters) == Listed(cs[..j], filters) + NamePairs(cs[j], cs[j].names, filters) + Listed(cs[j + 1..], filters)
  {
    var c := cs[j];
    assert cs == cs[..j] + [c] + cs[j + 1..];
    ListedAppend(cs[..j] + [c], cs[j + 1..], filters);
    ListedAppend(cs[..j], [c], filters);
    assert [c][..0] == [];
  }

  lemma LongIdsParts(a: seq<(string, PodmanContainer)>, m: seq<(string, PodmanContainer)>,
                     z: seq<(string, PodmanContainer)>)
    ensures LongIds(a + m + z) <==> LongIds(a) && LongIds(m) && LongIds(z)
  {
    var ps := a + m + z;
    assert forall i | 0 <= i < |a| :: ps[i] == a[i];
    assert forall i | 0 <= i < |m| :: ps[|a| + i] == m[i];
    assert forall i | 0 <= i < |z| :: ps[|a| + |m| + i] == z[i];
  }

  /** A name's row is the one of the last container that carries it. */
  lemma PodmanInfoLastWins(cs: seq<PodmanContainer>, filters: seq<string>, j: nat, n: string)
    requires PodmanInfo(Ok(cs), filters).Ok?
    requires j < |cs| && n in cs[j].names && Selected(n, filters)
    requires forall k | j < k < |cs| :: n !in cs[k].names
    ensures |cs[j].id| >= 12
    ensures n in PodmanInfo(Ok(cs), filters).value && PodmanInfo(Ok(cs), filters).value[n] == Info(cs[j])
  {
    var c := cs[j];
    var post := cs[j + 1..];
    var a := Listed(cs[..j], filters);
    var m := NamePairs(c, c.names, filters);
    var z := Listed(post, filters);
    ListedAround(cs, filters, j);
    LongIdsParts(a, m, z);
    NamePairsMembers(c, c.names, filters, n);
    ListedMembers(post, filters, n);
    assert forall k | 0 <= k < |post| :: post[k] == cs[j + 1 + k];
    LastPairsWin(a, m, z, c, n);
  }

  /** The loop over one container's names: each kept name gets the
      container's row; a short id panics at the first kept name. */
  method AddContainer(data: map<string, map<string, string>>, c: PodmanContainer, filterMap: set<string>,
                      filters: seq<string>) returns (r: Result<map<string, map<string, string>>>)
    requires forall f :: f in filterMap <==> f in filters
    ensures var ps := NamePairs(c, c.names, filters);
      (LongIds(ps) ==> r == Ok(data + FillInfo(ps))) && (!LongIds(ps) ==> r == Panic(ShortIdPanic))
  {
    var names := c.names;
    var acc := data;
    for j := 0 to |names|
      invariant LongIds(NamePairs(c, names[..j], filters))
      invariant acc == data + FillInfo(NamePairs(c, names[..j], filters))
    {
      var name := names[j];
      NamePairsStep(c, names, j, filters);
      assert Selected(name, filters) <==> name in filterMap || |filters| == 0;
      if name in filterMap || |filters| == 0 {
        if |c.id| < 12 {
          ShortIdFound(c, names, j, filters);
          return Panic(ShortIdPanic);
        }
        FillInfoSnoc(data, NamePairs(c, names[..j], filters), name, c);
        acc := acc[name := map["containerid" := c.id[..12], "image" := c.image]];
        assert NamePairs(c, names[..j + 1], filters) == NamePairs(c, names[..j], filters) + [(name, c)];
        assert acc == data + FillInfo(NamePairs(c, names[..j], filters) + [(name, c)]);
      } else {
        assert NamePairs(c, names[..j + 1], filters) == NamePairs(c, names[..j], filters) + [];
        assert NamePairs(c, names[..j], filters) + [] == NamePairs(c, names[..j], filters);
      }
    }
    assert names[..|names|] == names;
    return Ok(acc);
  }

  lemma NamePairsStep(c: PodmanContainer, names: seq<string>, j: nat, filters: seq<string>)
    requires j < |names|
    ensures NamePairs(c, names[..j + 1], filters)
            == NamePairs(c, names[..j], filters) + (if Selected(names[j], filters) then [(names[j], c)] else [])
  {
    assert names[..j + 1][..j] == names[..j];
  }

  /** A kept name of a container with a short id makes its pairs panic. */
  lemma ShortIdFound(c: PodmanContainer, names: seq<string>, j: nat, filters: seq<string>)
    requires j < |names| && Selected(names[j], filters) && |c.id| < 12
    ensures !LongIds(NamePairs(c, names, filters))
  {
    var pre := NamePairs(c, names[..j], filters);
    var post := NamePairs(c, names[j + 1..], filters);
    var all := NamePairs(c, names, filters);
    assert all == pre + [(names[j], c)] + post by {
      assert names[..j + 1] + names[j + 1..] == names;
      NamePairsStep(c, names, j, filters);
      NamePairsAppend(c, names[..j + 1], names[j + 1..], filters);
    }
    assert all[|pre|] == (names[j], c);
  }

  /** One more kept pair updates its name's row. */
  lemma FillInfoSnoc(data: map<string, map<string, string>>, ps: seq<(string, PodmanContainer)>, n: string, c: PodmanContainer)
    requires LongIds(ps) && |c.id| >= 12
    ensures LongIds(ps + [(n, c)])
    ensures data + FillInfo(ps + [(n, c)]) == (data + FillInfo(ps))[n := map["containerid" := c.id[..12], "image" := c.image]]
  {
    assert (ps + [(n, c)])[..|ps|] == ps;
  }

  lemma {:induction false} NamePairsAppend(c: PodmanContainer, a: seq<string>, b: seq<string>, filters: seq<string>)
    ensures NamePairs(c, a + b, filters) == NamePairs(c, a, filters) + NamePairs(c, b, filters)
  {
    if b == [] {
      assert a + b == a;
    } else {
      assert (a + b)[..|a + b| - 1] == a + b[..|b| - 1];
      NamePairsAppend(c, a, b[..|b| - 1], filters);
    }
  }

  /** `buildPodmanInfo` after decoding: the filter set, then the loop over
      the containers. */
  method BuildPodmanInfo(decoded: Result<seq<PodmanContainer>>, filters: seq<string>)
    returns (res: Result<map<string, map<string, string>>>)
    ensures res == PodmanInfo(decoded, filters)
  {
    var filterMap := FilterSet(filters);
    if !decoded.Ok? {
      return Err(ErrorText(decoded));
    }
    var containers := decoded.value;
    var data: map<string, map<string, string>> := map[];
    for i := 0 to |containers|
      invariant LongIds(Listed(containers[..i], filters))
      invariant data == FillInfo(Listed(containers[..i], filters))
    {
      var c := containers[i];
      assert containers[..i + 1][..i] == containers[..i];
      var r := AddContainer(data, c, filterMap, filters);
      if !r.Ok? {
        ListedAround(containers, filters, i);
        LongIdsParts(Listed(containers[..i], filters), NamePairs(c, c.names, filters), Listed(containers[i + 1..], filters));
        return r;
      }
      FillInfoAppend(Listed(containers[..i], filters), NamePairs(c, c.names, filters));
      data := r.value;
    }
    assert containers[..|containers|] == containers;
    return Ok(data);
  }

  // ---------------------------------------------------------------------
  // The SetTripleODataEnv merge

  /** A missing key of a Go map reads as the empty string. */
  function Get(info: map<string, string>, key: string): string {
    if key in info then info[key] else ""
  }

  /** The entry a name starts from: its service, or a zero `Service`. */
  function Base(services: map<string, Service>, name: string): Service {
    if name in services then services[name] else ZeroService
  }

  /** The entry with the container's id, image and name set. */
  function WithPodman(svc: Service, name: string, info: map<string, string>): Service {
    svc.(podmanId := Get(info, "containerid"), podmanImage := Get(info, "image"), podmanName := name)
  }

  /** The table after the names in `keys` have been merged. */
  function MergeKeys(services: map<string, Service>, data: map<string, map<string, string>>, keys: set<string>): map<string, Service>
    requires keys <= data.Keys
  {
    map n | n in services.Keys + keys :: if n in keys then WithPodman(Base(services, n), n, data[n]) else services[n]
  }

  /** The table after the whole merge. */
  function Merged(services: map<string, Service>, data: map<string, map<string, string>>): map<string, Service> {
    MergeKeys(services, data, data.Keys)
  }

  /** The merge adds the container names to the table, sets the three
      podman fields of their entries and changes nothing else. */
  lemma MergedEntries(services: map<string, Service>, data: map<string, map<string, string>>, n: string)
    ensures n in Merged(services, data) <==> n in services || n in data
    ensures n in data ==>
      var e := Merged(services, data)[n];
      e.podmanName == n && e.podmanId == Get(data[n], "containerid") && e.podmanImage == Get(data[n], "image")
      && e.(podmanId := Base(services, n).podmanId, podmanImage := Base(services, n).podmanImage,
            podmanName := Base(services, n).podmanName) == Base(services, n)
    ensures n in services && n !in data ==> Merged(services, data)[n] == services[n]
  {
  }

  /** Merging the same table twice changes nothing more. */
  lemma MergedIdempotent(services: map<string, Service>, data: map<string, map<string, string>>)
    ensures Merged(Merged(services, data), data) == Merged(services, data)
  {
    var once := Merged(services, data);
    forall n | n in once.Keys + data.Keys
      ensures Merged(once, data)[n] == once[n]
    {
    }
    assert Merged(once, data).Keys == once.Keys;
  }

  lemma MergeStep(services: map<string, Service>, data: map<string, map<string, string>>, keys: set<string>, name: string)
    requires keys <= data.Keys && name in data && name !in keys
    ensures MergeKeys(services, data, keys + {name})
            == MergeKeys(services, data, keys)[name := WithPodman(Base(MergeKeys(services, data, keys), name), name, data[name])]
  {
    assert Base(MergeKeys(services, data, keys), name) == Base(services, name);
  }

  // ---------------------------------------------------------------------
  // The package-level configuration

  /** The collector's state: the package-level `config.Services`. */
  class Fetcher {
    var services: map<string, Service>

    constructor(services: map<string, Service>)
      ensures this.services == services
    {
      this.services := services;
    }

    /** `PullConfigs`: in map order, each selected service is routed to
        one pull call. */
    method PullConfigs(configDir: string, tripleo: bool, sshCmd: string, undercloud: string, filters: seq<string>)
      returns (plan: seq<Pull>, ghost order: seq<string>)
      ensures GodiffMaps.Enumerates(order, services.Keys)
      ensures plan == Plan(order, services, filters, configDir, tripleo, sshCmd, undercloud)
    {
      var filterMap := FilterSet(filters);
      var rest := services.Keys;
      plan, order := [], [];
      while rest != {}
        invariant rest <= services.Keys
        invariant NoDup(order) && forall k :: k in order <==> k in services.Keys - rest
        invariant plan == Plan(order, services, filters, configDir, tripleo, sshCmd, undercloud)
        decreases |rest|
      {
        var service :| service in rest;
        PlanStep(order, service, services, filters, configDir, tripleo, sshCmd, undercloud);
        if service in filterMap || |filters| == 0 {
          var svc := services[service];
          if tripleo && (svc.podmanName == "" || svc.podmanId == "") {
            plan := plan + [FromHosts(service, configDir, sshCmd, undercloud)];
          } else {
            var fullCmd := sshCmd + " " + undercloud;
            plan := plan + [FromContainer(service, tripleo, configDir, fullCmd)];
          }
        }
        NoDupAppend(order, service);
        order := order + [service];
        rest := rest - {service};
      }
    }

    /** `GetListHosts`: the undercloud first, then every service's hosts
        not yet listed, in map order. */
    method GetListHosts(undercloud: string) returns (hosts: seq<string>, ghost order: seq<string>)
      ensures GodiffMaps.Enumerates(order, services.Keys)
      ensures hosts == AddNew([undercloud], AllHosts(order, services))
      ensures |hosts| > 0 && hosts[0] == undercloud && NoDup(hosts)
      ensures forall h :: h in hosts <==> h == undercloud || exists s | s in services :: h in services[s].hosts
    {
      hosts := [undercloud];
      var rest := services.Keys;
      order := [];
      while rest != {}
        invariant rest <= services.Keys
        invariant NoDup(order) && forall k :: k in order <==> k in services.Keys - rest
        invariant hosts == AddNew([undercloud], AllHosts(order, services))
        decreases |rest|
      {
        var service :| service in rest;
        assert (order + [service])[..|order|] == order;
        AddNewAppend([undercloud], AllHosts(order, services), services[service].hosts);
        hosts := AddHosts(hosts, services[service].hosts);
        NoDupAppend(order, service);
        order := order + [service];
        rest := rest - {service};
      }
      AddNewFacts([undercloud], AllHosts(order, services));
      forall h ensures h in hosts <==> h == undercloud || exists s | s in services :: h in services[s].hosts {
        AllHostsMembers(order, services, h);
      }
    }

    /** `CreateServicesTrees`: the tree commands of the selected services,
        in map order, up to the first that fails; its outcome, or an empty
        success. */
    method CreateServicesTrees(configDir: string, sshCmd: string, undercloud: string, filters: seq<string>,
                               dir: string -> string, exec: string -> ExecResult)
      returns (res: ExecResult, ghost order: seq<string>)
      ensures GodiffMaps.Enumerates(order, services.Keys)
      ensures res == RunAll(TreeCommands(order, services, filters, configDir, sshCmd, undercloud, dir), exec)
    {
      var filterMap := FilterSet(filters);
      var rest := services.Keys;
      order := [];
      while rest != {}
        invariant rest <= services.Keys
        invariant NoDup(order) && forall k :: k in order <==> k in services.Keys - rest
        invariant !RunAll(TreeCommands(order, services, filters, configDir, sshCmd, undercloud, dir), exec).failed
        decreases |rest|
      {
        var service :| service in rest;
        ghost var done := TreeCommands(order, services, filters, configDir, sshCmd, undercloud, dir);
        TreeCommandsAppend(order, [service], services, filters, configDir, sshCmd, undercloud, dir);
        assert [service][..0] == [];
        assert TreeCommands([service], services, filters, configDir, sshCmd, undercloud, dir)
               == (if Selected(service, filters)
                   then ServiceTreeCommands(service, services[service], configDir, sshCmd, undercloud, dir) else []);
        NoDupAppend(order, service);
        assert Selected(service, filters) <==> service in filterMap || |filters| == 0;
        if service in filterMap || |filters| == 0 {
          ghost var mine := ServiceTreeCommands(service, services[service], configDir, sshCmd, undercloud, dir);
          var r := CreateServiceTrees(service, services[service], configDir, sshCmd, undercloud, dir, exec);
          RunAllAppend(done, mine, exec);
          if r.failed {
            order := order + [service];
            order := FinishOrder(order, rest - {service}, services, filters, configDir, sshCmd, undercloud, dir, exec);
            return r, order;
          }
        } else {
          assert done + [] == done;
        }
        order := order + [service];
        rest := rest - {service};
      }
      return ExecResult("", false), order;
    }

    /** The merge loop of `SetTripleODataEnv`: every container name gets
        an entry (a zero one if new) with its podman id, image and name. */
    method MergePodmanInfo(data: map<string, map<string, string>>)
      modifies this
      ensures services == Merged(old(services), data)
    {
      ghost var s0 := services;
      var rest := data.Keys;
      while rest != {}
        invariant rest <= data.Keys
        invariant services == MergeKeys(s0, data, data.Keys - rest)
        decreases |rest|
      {
        var name :| name in rest;
        var info := data[name];
        MergeStep(s0, data, data.Keys - rest, name);
        ghost var prev := services;
        ghost var merged := WithPodman(Base(prev, name), name, info);
        if name !in services {
          services := services[name := ZeroService];
        }
        assert name in services && services[name] == Base(prev, name);
        if name in services {
          var entry := services[name];
          entry := entry.(podmanId := Get(info, "containerid"), podmanImage := Get(info, "image"), podmanName := name);
          assert entry == merged;
          services := services[name := entry];
        }
        assert services == prev[name := merged] by {
          if name !in prev {
            Overwrite(prev, name, ZeroService, merged);
          }
        }
        MoveKey(data.Keys, rest, name);
        rest := rest - {name};
      }
      assert data.Keys - rest == data.Keys;
    }

    /** `SetTripleODataEnv`: a failed `podman ps` is returned; the
        container table is built (a decoding error leaves it empty, a short
        id panics); the service file is loaded into `config` even when
        loading fails, which is then returned; otherwise the table is merged
        and the result of writing the file back is returned. */
    method SetTripleODataEnv(listError: Option<string>, decoded: Result<seq<PodmanContainer>>, filters: seq<string>,
                             loaded: map<string, Service>, loadError: Option<string>, dumpError: Option<string>)
      returns (res: Result<()>)
      modifies this
      ensures listError.Some? ==> res == Err(listError.value) && services == old(services)
      ensures listError.None? && PodmanInfo(decoded, filters).Panic? ==>
        res == Panic(ShortIdPanic) && services == old(services)
      ensures listError.None? && !PodmanInfo(decoded, filters).Panic? && loadError.Some? ==>
        res == Err(loadError.value) && services == loaded
      ensures listError.None? && !PodmanInfo(decoded, filters).Panic? && loadError.None? ==>
        var info := PodmanInfo(decoded, filters);
        services == Merged(loaded, if info.Ok? then info.value else map[])
        && res == (if dumpError.Some? then Err(dumpError.value) else Ok(()))
    {
      if listError.Some? {
        return Err(listError.value);
      }
      var info := BuildPodmanInfo(decoded, filters);
      if info.Panic? {
        return Panic(info.reason);
      }
      var data := if info.Ok? then info.value else map[];
      services := loaded;
      if loadError.Some? {
        return Err(loadError.value);
      }
      MergePodmanInfo(data);
      if dumpError.Some? {
        return Err(dumpError.value);
      }
      return Ok(());
    }
  }

  /** `CreateServiceTree`: the `mkdir -p` for one path, and its outcome. */
  method CreateServiceTree(serviceName: string, path: string, configDir: string, sshCmd: string, host: string,
                           dir: string -> string, exec: string -> ExecResult) returns (res: ExecResult)
    ensures res == exec(TreeCommand(serviceName, path, configDir, sshCmd, host, dir))
  {
    var fullPath := configDir + "/" + serviceName + "/" + host + "/" + dir(path);
    var cmd := sshCmd + " mkdir -p " + fullPath;
    res := exec(cmd);
  }

  /** The loop over a service's paths for one host, returning at the first
      failure. */
  method CreateHostTrees(name: string, paths: seq<string>, configDir: string, fullCmd: string, host: string,
                         dir: string -> string, exec: string -> ExecResult) returns (res: ExecResult)
    ensures res == RunAll(HostTreeCommands(name, paths, configDir, fullCmd, host, dir), exec)
  {
    ghost var cmds := HostTreeCommands(name, paths, configDir, fullCmd, host, dir);
    for i := 0 to |paths|
      invariant !RunAll(cmds[..i], exec).failed
    {
      var r := CreateServiceTree(name, paths[i], configDir, fullCmd, host, dir, exec);
      assert cmds[..i + 1] == cmds[..i] + [cmds[i]];
      RunAllAppend(cmds[..i], [cmds[i]], exec);
      if r.failed {
        assert cmds == cmds[..i] + cmds[i..];
        RunAllAppend(cmds[..i], cmds[i..], exec);
        return r;
      }
    }
    assert cmds[..|paths|] == cmds;
    return ExecResult("", false);
  }

  /** The trees of one service: per host when it has hosts, else on the
      undercloud with an empty host. */
  method CreateServiceTrees(name: string, svc: Service, configDir: string, sshCmd: string, undercloud: string,
                            dir: string -> string, exec: string -> ExecResult) returns (res: ExecResult)
    ensures res == RunAll(ServiceTreeCommands(name, svc, configDir, sshCmd, undercloud, dir), exec)
  {
    if |svc.hosts| != 0 {
      var hosts := svc.hosts;
      for i := 0 to |hosts|
        invariant !RunAll(HostsTreeCommands(name, svc.paths, hosts[..i], configDir, sshCmd, dir), exec).failed
      {
        var h := hosts[i];
        var fullCmd := sshCmd + " " + h;
        assert hosts[..i + 1][..i] == hosts[..i];
        ghost var before := HostsTreeCommands(name, svc.paths, hosts[..i], configDir, sshCmd, dir);
        ghost var mine := HostTreeCommands(name, svc.paths, configDir, fullCmd, h, dir);
        var r := CreateHostTrees(name, svc.paths, configDir, fullCmd, h, dir, exec);
        RunAllAppend(before, mine, exec);
        if r.failed {
          assert hosts == hosts[..i + 1] + hosts[i + 1..];
          HostsTreeAppend(name, svc.paths, hosts[..i + 1], hosts[i + 1..], configDir, sshCmd, dir);
          RunAllAppend(before + mine, HostsTreeCommands(name, svc.paths, hosts[i + 1..], configDir, sshCmd, dir), exec);
          return r;
        }
      }
      assert hosts[..|hosts|] == hosts;
      return ExecResult("", false);
    } else {
      var fullCmd := sshCmd + " " + undercloud;
      res := CreateHostTrees(name, svc.paths, configDir, fullCmd, "", dir, exec);
    }
  }

  lemma {:induction false} HostsTreeAppend(name: string, paths: seq<string>, a: seq<string>, b: seq<string>,
                                           configDir: string, sshCmd: string, dir: string -> string)
    ensures HostsTreeCommands(name, paths, a + b, configDir, sshCmd, dir)
            == HostsTreeCommands(name, paths, a, configDir, sshCmd, dir) + HostsTreeCommands(name, paths, b, configDir, sshCmd, dir)
  {
    if b == [] {
      assert a + b == a;
    } else {
      var init := b[..|b| - 1];
      var h := b[|b| - 1];
      assert (a + b)[..|a + b| - 1] == a + init;
      assert (a + b)[|a + b| - 1] == h;
      HostsTreeAppend(name, paths, a, init, configDir, sshCmd, dir);
      var last := HostTreeCommands(name, paths, configDir, sshCmd + " " + h, h, dir);
      assert HostsTreeCommands(name, paths, a + b, configDir, sshCmd, dir)
             == HostsTreeCommands(name, paths, a + init, configDir, sshCmd, dir) + last;
      assert HostsTreeCommands(name, paths, b, configDir, sshCmd, dir)
             == HostsTreeCommands(name, paths, init, configDir, sshCmd, dir) + last;
    }
  }

  lemma {:induction false} TreeCommandsAppend(a: seq<string>, b: seq<string>, services: map<string, Service>,
                                              filters: seq<string>, configDir: string, sshCmd: string,
                                              undercloud: string, dir: string -> string)
    requires forall s | s in a :: s in services
    requires forall s | s in b :: s in services
    ensures forall s | s in a + b :: s in services
    ensures TreeCommands(a + b, services, filters, configDir, sshCmd, undercloud, dir)
            == TreeCommands(a, services, filters, configDir, sshCmd, undercloud, dir)
               + TreeCommands(b, services, filters, configDir, sshCmd, undercloud, dir)
  {
    if b == [] {
      assert a + b == a;
    } else {
      var init := b[..|b| - 1];
      var s := b[|b| - 1];
      assert b == init + [s];
      assert a + b == (a + init) + [s];
      assert forall x | x in init :: x in b;
      var ta := TreeCommands(a, services, filters, configDir, sshCmd, undercloud, dir);
      var ti := TreeCommands(init, services, filters, configDir, sshCmd, undercloud, dir);
      var last := if Selected(s, filters) then ServiceTreeCommands(s, services[s], configDir, sshCmd, undercloud, dir) else [];
      assert TreeCommands(a + b, services, filters, configDir, sshCmd, undercloud, dir) == (ta + ti) + last by {
        TreeCommandsAppend(a, init, services, filters, configDir, sshCmd, undercloud, dir);
        TreeCommandsSnoc(a + init, s, services, filters, configDir, sshCmd, undercloud, dir);
      }
      assert TreeCommands(b, services, filters, configDir, sshCmd, undercloud, dir) == ti + last by {
        TreeCommandsSnoc(init, s, services, filters, configDir, sshCmd, undercloud, dir);
      }
      SeqAssoc(ta, ti, last);
    }
  }

  lemma SeqAssoc<T>(x: seq<T>, y: seq<T>, z: seq<T>)
    ensures (x + y) + z == x + (y + z)
  {
  }

  lemma TreeCommandsSnoc(order: seq<string>, s: string, services: map<string, Service>,
                         filters: seq<string>, configDir: string, sshCmd: string,
                         undercloud: string, dir: string -> string)
    requires (forall x | x in order :: x in services) && s in services
    ensures forall x | x in order + [s] :: x in services
    ensures TreeCommands(order + [s], services, filters, configDir, sshCmd, undercloud, dir)
            == TreeCommands(order, services, filters, configDir, sshCmd, undercloud, dir)
               + (if Selected(s, filters) then ServiceTreeCommands(s, services[s], configDir, sshCmd, undercloud, dir) else [])
  {
    assert (order + [s])[..|order|] == order;
  }

  /** After a failure, the keys not yet visited can follow in any order:
      the run's outcome stays that of the failure. */
  lemma FinishOrder(order: seq<string>, rest: set<string>, services: map<string, Service>, filters: seq<string>,
                    configDir: string, sshCmd: string, undercloud: string, dir: string -> string,
                    exec: string -> ExecResult) returns (full: seq<string>)
    requires rest <= services.Keys
    requires NoDup(order) && forall k :: k in order <==> k in services.Keys - rest
    requires RunAll(TreeCommands(order, services, filters, configDir, sshCmd, undercloud, dir), exec).failed
    ensures GodiffMaps.Enumerates(full, services.Keys)
    ensures RunAll(TreeCommands(full, services, filters, configDir, sshCmd, undercloud, dir), exec)
            == RunAll(TreeCommands(order, services, filters, configDir, sshCmd, undercloud, dir), exec)
  {
    var tail := SomeEnumeration(rest);
    EnumeratesConcat(order, tail, services.Keys - rest, rest);
    assert services.Keys - rest + rest == services.Keys;
    TreeCommandsAppend(order, tail, services, filters, configDir, sshCmd, undercloud, dir);
    RunAllAppend(TreeCommands(order, services, filters, configDir, sshCmd, undercloud, dir),
                 TreeCommands(tail, services, filters, configDir, sshCmd, undercloud, dir), exec);
    full := order + tail;
  }

  /** Storing a key twice keeps only the second value. */
  lemma Overwrite<K, V>(m: map<K, V>, k: K, v1: V, v2: V)
    ensures m[k := v1][k := v2] == m[k := v2]
  {
  }

  /** Moving a key from the pending set to the visited ones. */
  lemma MoveKey<T>(all: set<T>, rest: set<T>, x: T)
    requires rest <= all && x in rest
    ensures all - rest + {x} == all - (rest - {x})
  {
  }

  /** Listings of two disjoint key sets together list their union. */
  lemma EnumeratesConcat(a: seq<string>, b: seq<string>, ka: set<string>, kb: set<string>)
    requires GodiffMaps.Enumerates(a, ka) && GodiffMaps.Enumerates(b, kb) && ka !! kb
    ensures GodiffMaps.Enumerates(a + b, ka + kb)
  {
    var ab := a + b;
    forall i, j | 0 <= i < j < |ab| ensures ab[i] != ab[j] {
      if j < |a| {
        assert ab[i] == a[i] && ab[j] == a[j];
      } else if i >= |a| {
        assert ab[i] == b[i - |a|] && ab[j] == b[j - |a|];
      } else {
        assert ab[i] == a[i] && ab[j] == b[j - |a|];
        assert a[i] in ka && b[j - |a|] in kb;
      }
    }
  }
}

