/** `serveraccess add`, `update` and `list` (src/serveraccess.rs): a server
    access rule names the remote account and optional key options, and
    targets exactly one server or one server group. Answers are the values
    `ask_for`/`set_or_ask_for` returned. */
module ServerAccessRules {
  import opened Wrappers
  import Text
  import Prompt
  import opened Schema
  import Listing
  import Servers
  import Groups
  import Resolution

  /** The remote account stored when the answer is empty. */
  const DefaultSshUser: string := "administrator"

  const BothEmpty: string := "Server name and server group name cannot *both* be empty."

  /** The error the database reports when an `UPDATE` would give two rules
      the same name (the `name` column is unique and the command does not
      check it first). */
  const DuplicateName: string := "duplicate key value violates unique constraint"

  /** A rule points at exactly one of a server or a server group. */
  predicate ExactlyOneTarget(a: ServerAccess)
  {
    a.serverId.Some? != a.servergroupId.Some?
  }

  /** Its target is a row of the server or server group table. */
  predicate TargetExists(a: ServerAccess, servers: set<Server>, groups: set<Group>)
  {
    && (a.serverId.Some? ==> exists s :: s in servers && s.id == a.serverId.value)
    && (a.servergroupId.Some? ==> a.servergroupId.value in GroupIds(groups))
  }

  /** Rule ids and names are unique columns. */
  predicate RulesUnique(rules: set<ServerAccess>)
  {
    forall a, b :: a in rules && b in rules && a != b ==> a.id != b.id && a.name != b.name
  }

  predicate NameTaken(rules: set<ServerAccess>, name: string)
  {
    exists a :: a in rules && a.name == name
  }

  /** The id of the rule called `name`. */
  function IdByName(rules: set<ServerAccess>, name: string): (r: Option<int>)
    requires RulesUnique(rules)
    ensures r.Some? <==> NameTaken(rules, name)
    ensures r.Some? ==> forall a :: a in rules && a.name == name ==> a.id == r.value
  {
    if NameTaken(rules, name) then
      var a :| a in rules && a.name == name;
      Some(a.id)
    else None
  }

  /** The target chosen by `add`. `serverAnswer` is `None` when a server
      group was given on the command line, in which case the server question
      is not asked; a blank or `null` server answer moves on to the group. */
  function AddTarget(servers: set<Server>, groups: set<Group>, serverAnswer: Option<string>, groupAnswer: string)
    : (r: Result<(Option<int>, Option<int>), string>)
    requires ServerColumnsUnique(servers) && Groups.GroupsUnique(groups)
    ensures r.Ok? ==> r.value.0.Some? != r.value.1.Some?
    ensures r.Ok? && r.value.0.Some? ==>
      serverAnswer.Some? && exists s :: s in servers && s.name == serverAnswer.value && s.id == r.value.0.value
    ensures r.Ok? && r.value.1.Some? ==>
      exists g :: g in groups && g.name == groupAnswer && g.id == r.value.1.value
    ensures serverAnswer.Some? && Prompt.BlankOrNull(serverAnswer.value).Some? ==>
      (r.Ok? <==> Servers.NameTaken(servers, serverAnswer.value)) && (r.Err? ==> r.error == "Server not found.")
    ensures (serverAnswer.None? || Prompt.BlankOrNull(serverAnswer.value).None?) ==>
      && (Prompt.BlankOrNull(groupAnswer).None? ==> r == Err(BothEmpty))
      && (Prompt.BlankOrNull(groupAnswer).Some? ==>
            (r.Ok? <==> Groups.NameTaken(groups, groupAnswer)) && (r.Err? ==> r.error == "Server group not found."))
  {
    var name := if serverAnswer.Some? then serverAnswer.value else "";
    if Prompt.BlankOrNull(name).None? then
      if Prompt.BlankOrNull(groupAnswer).None? then Err(BothEmpty)
      else match Groups.IdByName(groups, groupAnswer)
        case None => Err("Server group not found.")
        case Some(g) => Ok((None, Some(g)))
    else match Servers.IdByName(servers, name)
      case None => Err("Server not found.")
      case Some(s) => Ok((Some(s), None))
  }

  /** The row `add` inserts. */
  function NewRule(newId: int, name: string, sshuser: string, sshfrom: string, sshcommand: string, sshoption: string,
                   target: (Option<int>, Option<int>), comment: string): (a: ServerAccess)
    ensures a.id == newId && a.name == name
    ensures sshuser == "" ==> a.sshuser == DefaultSshUser
    ensures sshuser != "" ==> a.sshuser == sshuser
    ensures a.sshfrom == Prompt.BlankOrNull(sshfrom) && a.sshcommand == Prompt.BlankOrNull(sshcommand)
    ensures a.sshoption == Prompt.BlankOrNull(sshoption) && a.comment == Prompt.BlankOrNull(comment)
    ensures (a.serverId, a.servergroupId) == target
  {
    ServerAccess(newId, name, if sshuser == "" then DefaultSshUser else sshuser, Prompt.BlankOrNull(sshfrom),
                 Prompt.BlankOrNull(sshcommand), Prompt.BlankOrNull(sshoption), target.0, target.1, Prompt.BlankOrNull(comment))
  }

  /** `serveraccess add`: a non-empty unused name, the remote account
      (`administrator` by default), the optional key options absent when
      blank or `null`, then the target. */
  function AddServerAccess(rules: set<ServerAccess>, servers: set<Server>, groups: set<Group>, newId: int,
                           name: string, sshuser: string, sshfrom: string, sshcommand: string, sshoption: string,
                           serverAnswer: Option<string>, groupAnswer: string, comment: string)
    : (r: Result<set<ServerAccess>, string>)
    requires ServerColumnsUnique(servers) && Groups.GroupsUnique(groups)
    requires forall a :: a in rules ==> a.id != newId
    ensures r.Ok? <==> name != "" && !NameTaken(rules, name) && AddTarget(servers, groups, serverAnswer, groupAnswer).Ok?
    ensures name == "" ==> r == Err("Server access name cannot be empty.")
    ensures name != "" && NameTaken(rules, name) ==> r == Err("Name already in use.")
    ensures name != "" && !NameTaken(rules, name) && AddTarget(servers, groups, serverAnswer, groupAnswer).Err? ==>
      r == Err(AddTarget(servers, groups, serverAnswer, groupAnswer).error)
    ensures r.Ok? ==> r.value == rules + {NewRule(newId, name, sshuser, sshfrom, sshcommand, sshoption,
                                                  AddTarget(servers, groups, serverAnswer, groupAnswer).value, comment)}
  {
    if name == "" then Err("Server access name cannot be empty.")
    else if NameTaken(rules, name) then Err("Name already in use.")
    else
      var target := AddTarget(servers, groups, serverAnswer, groupAnswer);
      if target.Err? then Err(target.error)
      else
        var a := NewRule(newId, name, sshuser, sshfrom, sshcommand, sshoption, target.value, comment);
        assert a !in rules;
        Ok(rules + {a})
  }

  /** `add` inserts one row, keeps ids and names unique, and the new rule
      has exactly one target, which is a row of its table. */
  lemma AddedRule(rules: set<ServerAccess>, servers: set<Server>, groups: set<Group>, newId: int,
                  name: string, sshuser: string, sshfrom: string, sshcommand: string, sshoption: string,
                  serverAnswer: Option<string>, groupAnswer: string, comment: string)
    requires ServerColumnsUnique(servers) && Groups.GroupsUnique(groups)
    requires forall a :: a in rules ==> a.id != newId
    requires AddServerAccess(rules, servers, groups, newId, name, sshuser, sshfrom, sshcommand, sshoption,
                             serverAnswer, groupAnswer, comment).Ok?
    ensures var after := AddServerAccess(rules, servers, groups, newId, name, sshuser, sshfrom, sshcommand, sshoption,
                                         serverAnswer, groupAnswer, comment).value;
      && |after| == |rules| + 1
      && (RulesUnique(rules) ==> RulesUnique(after))
      && forall a :: a in after - rules ==> a.id == newId && a.name == name && ExactlyOneTarget(a) && TargetExists(a, servers, groups)
  {
    var t := AddTarget(servers, groups, serverAnswer, groupAnswer);
    assert t.Ok?;
    var a := NewRule(newId, name, sshuser, sshfrom, sshcommand, sshoption, t.value, comment);
    InsertRule(rules, a);
    assert a.servergroupId.Some? ==> a.servergroupId.value in GroupIds(groups);
  }

  /** Inserting a rule whose id and name are both new adds one row and keeps
      the columns unique. */
  lemma InsertRule(rules: set<ServerAccess>, a: ServerAccess)
    requires forall b :: b in rules ==> b.id != a.id
    requires !NameTaken(rules, a.name)
    ensures |rules + {a}| == |rules| + 1 && (rules + {a}) - rules == {a}
    ensures RulesUnique(rules) ==> RulesUnique(rules + {a})
  {
    assert a !in rules;
  }

  /** The server id `update` settles on: a blank answer keeps the stored
      one (which may be absent), `null` clears it, any other answer must
      name a server. */
  function UpdateServerId(servers: set<Server>, prev: ServerAccess, serverAnswer: string)
    : (r: Result<Option<int>, string>)
    requires ServerColumnsUnique(servers)
    ensures Text.Norm(serverAnswer) == "" ==> r == Ok(prev.serverId)
    ensures Text.Norm(serverAnswer) == "null" ==> r == Ok(None)
    ensures Text.Norm(serverAnswer) != "" && Text.Norm(serverAnswer) != "null" ==>
      && (r.Ok? <==> Servers.NameTaken(servers, serverAnswer))
      && (r.Ok? ==> r.value.Some? && exists s :: s in servers && s.name == serverAnswer && s.id == r.value.value)
      && (r.Err? ==> r.error == "Server not found.")
  {
    var n := Text.Norm(serverAnswer);
    if n == "" then Ok(prev.serverId)
    else if n == "null" then Ok(None)
    else match Servers.IdByName(servers, serverAnswer)
      case None => Err("Server not found.")
      case Some(id) => Ok(Some(id))
  }

  /** The group id `update` settles on when no server remains: a blank
      answer keeps the stored group only if there is one, `null` is refused,
      any other answer must name a group. */
  function UpdateGroupId(groups: set<Group>, prev: ServerAccess, groupAnswer: string)
    : (r: Result<int, string>)
    requires Groups.GroupsUnique(groups)
    ensures Text.Norm(groupAnswer) == "" ==>
      r == (if prev.servergroupId.Some? then Ok(prev.servergroupId.value) else Err(BothEmpty))
    ensures Text.Norm(groupAnswer) == "null" ==> r == Err(BothEmpty)
    ensures Text.Norm(groupAnswer) != "" && Text.Norm(groupAnswer) != "null" ==>
      && (r.Ok? <==> Groups.NameTaken(groups, groupAnswer))
      && (r.Ok? ==> exists g :: g in groups && g.name == groupAnswer && g.id == r.value)
      && (r.Err? ==> r.error == "Server group not found.")
  {
    var n := Text.Norm(groupAnswer);
    if n == "" then
      if prev.servergroupId.Some? then Ok(prev.servergroupId.value) else Err(BothEmpty)
    else if n == "null" then Err(BothEmpty)
    else match Groups.IdByName(groups, groupAnswer)
      case None => Err("Server group not found.")
      case Some(id) => Ok(id)
  }

  /** The target after `update`: a remaining server clears the group;
      otherwise the group question decides. */
  function UpdateTarget(servers: set<Server>, groups: set<Group>, prev: ServerAccess, serverAnswer: string, groupAnswer: string)
    : (r: Result<(Option<int>, Option<int>), string>)
    requires ServerColumnsUnique(servers) && Groups.GroupsUnique(groups)
    ensures r.Ok? ==> r.value.0.Some? != r.value.1.Some?
    ensures r.Ok? <==> (UpdateServerId(servers, prev, serverAnswer).Ok?
      && (UpdateServerId(servers, prev, serverAnswer).value.None? ==> UpdateGroupId(groups, prev, groupAnswer).Ok?))
    ensures r.Ok? ==> r.value.0 == UpdateServerId(servers, prev, serverAnswer).value
    ensures r.Ok? && r.value.0.None? ==> r.value.1 == Some(UpdateGroupId(groups, prev, groupAnswer).value)
  {
    match UpdateServerId(servers, prev, serverAnswer)
    case Err(e) => Err(e)
    case Ok(Some(s)) => Ok((Some(s), None))
    case Ok(None) =>
      match UpdateGroupId(groups, prev, groupAnswer)
      case Err(e) => Err(e)
      case Ok(g) => Ok((None, Some(g)))
  }

  /** The rule as `update` rewrites it, or the command's error. */
  function UpdatedRule(servers: set<Server>, groups: set<Group>, prev: ServerAccess, newName: string, sshuser: string,
                       sshfrom: string, sshcommand: string, sshoption: string,
                       serverAnswer: string, groupAnswer: string, comment: string): (r: Result<ServerAccess, string>)
    requires ServerColumnsUnique(servers) && Groups.GroupsUnique(groups)
    ensures r.Ok? <==> UpdateTarget(servers, groups, prev, serverAnswer, groupAnswer).Ok?
    ensures r.Ok? ==> && r.value.id == prev.id
                      && r.value.name == Prompt.KeepIfEmpty(newName, prev.name)
                      && r.value.sshuser == Prompt.KeepIfEmpty(sshuser, prev.sshuser)
                      && r.value.sshfrom == Prompt.TriState(sshfrom, prev.sshfrom)
                      && r.value.sshcommand == Prompt.TriState(sshcommand, prev.sshcommand)
                      && r.value.sshoption == Prompt.TriState(sshoption, prev.sshoption)
                      && r.value.comment == Prompt.TriState(comment, prev.comment)
    ensures r.Ok? ==> ExactlyOneTarget(r.value)
    ensures r.Ok? ==> (r.value.serverId, r.value.servergroupId) == UpdateTarget(servers, groups, prev, serverAnswer, groupAnswer).value
  {
    match UpdateTarget(servers, groups, prev, serverAnswer, groupAnswer)
    case Err(e) => Err(e)
    case Ok((server, group)) =>
      Ok(ServerAccess(prev.id, Prompt.KeepIfEmpty(newName, prev.name), Prompt.KeepIfEmpty(sshuser, prev.sshuser),
                      Prompt.TriState(sshfrom, prev.sshfrom), Prompt.TriState(sshcommand, prev.sshcommand),
                      Prompt.TriState(sshoption, prev.sshoption), server, group, Prompt.TriState(comment, prev.comment)))
  }

  /** Another rule than `prev` already holds the name of `a`. */
  predicate NameClash(rules: set<ServerAccess>, prev: ServerAccess, a: ServerAccess)
  {
    exists b :: b in rules && b.name == a.name && b.id != prev.id
  }

  /** `after` is `rules` with `prev` replaced by `a`, which keeps the id and
      takes a name no other rule holds. */
  predicate Replaced(rules: set<ServerAccess>, prev: ServerAccess, a: ServerAccess, after: set<ServerAccess>)
  {
    && prev in rules && a.id == prev.id
    && !NameClash(rules, prev, a)
    && after == rules - {prev} + {a}
  }

  lemma ReplacedKeepsUnique(rules: set<ServerAccess>, prev: ServerAccess, a: ServerAccess, after: set<ServerAccess>)
    requires RulesUnique(rules) && Replaced(rules, prev, a, after)
    ensures RulesUnique(after) && |after| == |rules|
    ensures forall b :: b in after && b.name == a.name ==> b == a
  {
    var rest := rules - {prev};
    assert forall b :: b in rest ==> b.id != prev.id && b.name != a.name;
    assert |rest + {a}| == |rest| + 1;
  }

  /** `serveraccess update`: find the rule by name, rewrite it; a new name
      that another rule holds is refused by the database, not by the
      command. */
  function UpdateServerAccess(rules: set<ServerAccess>, servers: set<Server>, groups: set<Group>,
                              oldName: string, newName: string, sshuser: string,
                              sshfrom: string, sshcommand: string, sshoption: string,
                              serverAnswer: string, groupAnswer: string, comment: string)
    : (r: Result<set<ServerAccess>, string>)
    requires RulesUnique(rules) && ServerColumnsUnique(servers) && Groups.GroupsUnique(groups)
    ensures oldName == "" ==> r == Err("Server access name cannot be empty.")
    ensures oldName != "" && !NameTaken(rules, oldName) ==> r == Err("Server access not found.")
    ensures r.Ok? <==> (oldName != "" && exists prev :: (
      && prev in rules && prev.name == oldName
      && var u := UpdatedRule(servers, groups, prev, newName, sshuser, sshfrom, sshcommand, sshoption, serverAnswer, groupAnswer, comment);
         u.Ok? && !NameClash(rules, prev, u.value)))
    ensures (oldName != "" && exists prev :: (
      && prev in rules && prev.name == oldName
      && var u := UpdatedRule(servers, groups, prev, newName, sshuser, sshfrom, sshcommand, sshoption, serverAnswer, groupAnswer, comment);
         u.Ok? && NameClash(rules, prev, u.value))) ==> r == Err(DuplicateName)
    ensures r.Ok? ==> exists prev :: (
      && prev in rules && prev.name == oldName
      && var u := UpdatedRule(servers, groups, prev, newName, sshuser, sshfrom, sshcommand, sshoption, serverAnswer, groupAnswer, comment);
         u.Ok? && Replaced(rules, prev, u.value, r.value))
  {
    if oldName == "" then Err("Server access name cannot be empty.")
    else if !NameTaken(rules, oldName) then Err("Server access not found.")
    else
      var prev :| prev in rules && prev.name == oldName;
      assert forall p :: p in rules && p.name == oldName ==> p == prev;
      match UpdatedRule(servers, groups, prev, newName, sshuser, sshfrom, sshcommand, sshoption, serverAnswer, groupAnswer, comment)
      case Err(e) => Err(e)
      case Ok(a) =>
        if NameClash(rules, prev, a) then Err(DuplicateName)
        else Ok(rules - {prev} + {a})
  }

  /** A successful `update` keeps ids and names unique and the number of
      rules, and the rewritten rule has exactly one target. */
  lemma UpdatedRules(rules: set<ServerAccess>, servers: set<Server>, groups: set<Group>,
                     oldName: string, newName: string, sshuser: string,
                     sshfrom: string, sshcommand: string, sshoption: string,
                     serverAnswer: string, groupAnswer: string, comment: string)
    requires RulesUnique(rules) && ServerColumnsUnique(servers) && Groups.GroupsUnique(groups)
    requires UpdateServerAccess(rules, servers, groups, oldName, newName, sshuser, sshfrom, sshcommand, sshoption,
                                serverAnswer, groupAnswer, comment).Ok?
    ensures var after := UpdateServerAccess(rules, servers, groups, oldName, newName, sshuser, sshfrom, sshcommand, sshoption,
                                            serverAnswer, groupAnswer, comment).value;
      && RulesUnique(after) && |after| == |rules|
      && forall a :: a in after && a.name == Prompt.KeepIfEmpty(newName, oldName) ==> ExactlyOneTarget(a)
  {
    var after := UpdateServerAccess(rules, servers, groups, oldName, newName, sshuser, sshfrom, sshcommand, sshoption,
                                    serverAnswer, groupAnswer, comment).value;
    var prev :| prev in rules && prev.name == oldName &&
      var u := UpdatedRule(servers, groups, prev, newName, sshuser, sshfrom, sshcommand, sshoption, serverAnswer, groupAnswer, comment);
      u.Ok? && Replaced(rules, prev, u.value, after);
    var a := UpdatedRule(servers, groups, prev, newName, sshuser, sshfrom, sshcommand, sshoption, serverAnswer, groupAnswer, comment).value;
    ReplacedKeepsUnique(rules, prev, a, after);
  }

  /** Answering every question of `update` with <Enter> leaves the table as
      it was exactly when the rule had one target; a rule with neither is
      refused. */
  lemma UpdateBlankKeeps(rules: set<ServerAccess>, servers: set<Server>, groups: set<Group>, prev: ServerAccess)
    requires RulesUnique(rules) && ServerColumnsUnique(servers) && Groups.GroupsUnique(groups)
    requires prev in rules && prev.name != ""
    ensures ExactlyOneTarget(prev) ==> UpdateServerAccess(rules, servers, groups, prev.name, "", "", "", "", "", "", "", "") == Ok(rules)
    ensures prev.serverId.None? && prev.servergroupId.None? ==>
      UpdateServerAccess(rules, servers, groups, prev.name, "", "", "", "", "", "", "", "") == Err(BothEmpty)
  {
    assert Text.Norm("") == "";
    assert forall b :: b in rules && b.name == prev.name ==> b == prev;
    if ExactlyOneTarget(prev) {
      assert UpdatedRule(servers, groups, prev, "", "", "", "", "", "", "", "") == Ok(prev);
      assert rules - {prev} + {prev} == rules;
    }
  }

  /** Moving a rule to a server drops its group. */
  lemma RetargetToServer(servers: set<Server>, groups: set<Group>, prev: ServerAccess, server: Server, groupAnswer: string)
    requires ServerColumnsUnique(servers) && Groups.GroupsUnique(groups)
    requires server in servers
    requires Text.Norm(server.name) != "" && Text.Norm(server.name) != "null"
    ensures UpdateTarget(servers, groups, prev, server.name, groupAnswer) == Ok((Some(server.id), None))
  {
    assert Servers.NameTaken(servers, server.name);
  }

  /** Clearing the server and naming a group moves the rule to that group. */
  lemma RetargetToGroup(servers: set<Server>, groups: set<Group>, prev: ServerAccess, group: Group)
    requires ServerColumnsUnique(servers) && Groups.GroupsUnique(groups)
    requires group in groups
    requires Text.Norm(group.name) != "" && Text.Norm(group.name) != "null"
    ensures UpdateTarget(servers, groups, prev, "null", group.name) == Ok((None, Some(group.id)))
  {
    Prompt.NormNull();
    assert Groups.NameTaken(groups, group.name);
  }

  /** A row of `serveraccess list`: the rule with one server (and its IP) or
      one server group; the summary query writes `-` for the side that is
      not set. */
  datatype AccessRow = AccessRow(
    name: string,
    sshuser: string,
    server: Option<string>,
    ip: Option<string>,
    sshfrom: Option<string>,
    sshcommand: Option<string>,
    sshoption: Option<string>,
    servergroup: Option<string>)

  /** The servers a rule is joined with in the detailed listing queries,
      each with the servergroup column of its row: a server rule's own
      server with no group; for a group rule, every server whose direct group
      `g` the rule's group covers, with `g`'s name. */
  function ServerSide(db: Db, a: ServerAccess): set<(Server, Option<string>)>
  {
    (set s | s in db.servers && a.serverId == Some(s.id) :: (s, None))
    + (set g, m, s | g in db.servergroups && m in db.serverInGroup && s in db.servers
         && a.servergroupId.Some? && m.0 == s.id && m.1 == g.id
         && Resolution.Covers(db.servergroupNesting, a.servergroupId.value, g.id)
       :: (s, Some(g.name)))
  }

  /** The servers of the listing are the servers `generate` reaches. */
  lemma ServerSideReached(db: Db, a: ServerAccess, s: Server)
    requires s in db.servers
    ensures (exists c :: (s, c) in ServerSide(db, a)) <==> Resolution.ServerReached(db, a, s)
  {
    if Resolution.ServerReached(db, a, s) {
      if a.serverId == Some(s.id) {
        assert (s, None) in ServerSide(db, a);
      } else {
        var m :| m in db.serverInGroup && m.0 == s.id && m.1 in GroupIds(db.servergroups)
          && Resolution.Covers(db.servergroupNesting, a.servergroupId.value, m.1);
        var g :| g in db.servergroups && g.id == m.1;
        assert (s, Some(g.name)) in ServerSide(db, a);
      }
    }
    if exists c :: (s, c) in ServerSide(db, a) {
      var c :| (s, c) in ServerSide(db, a);
      if c.Some? {
        var g, m, s' :| g in db.servergroups && m in db.serverInGroup && s' in db.servers
          && a.servergroupId.Some? && m.0 == s'.id && m.1 == g.id
          && Resolution.Covers(db.servergroupNesting, a.servergroupId.value, g.id)
          && (s, c) == (s', Some(g.name));
        assert m.1 in GroupIds(db.servergroups);
      }
    }
  }

  /** The detailed query, used whenever a filter or `--json` is given: one
      row per rule and server it is joined with. */
  function DetailedRows(db: Db): set<AccessRow>
  {
    set a, p | a in db.serveraccess && p in ServerSide(db, a)
      :: AccessRow(a.name, a.sshuser, Some(p.0.name), Some(p.0.ip), a.sshfrom, a.sshcommand, a.sshoption, p.1)
  }

  /** The summary query: one row per rule, its server or its group. */
  function SummaryRows(db: Db): set<AccessRow>
  {
    (set a, s | a in db.serveraccess && s in db.servers && a.serverId == Some(s.id)
       :: AccessRow(a.name, a.sshuser, Some(s.name), Some(s.ip), a.sshfrom, a.sshcommand, a.sshoption, Some("-")))
    + (set a, g | a in db.serveraccess && g in db.servergroups && a.servergroupId == Some(g.id)
       :: AccessRow(a.name, a.sshuser, Some("-"), None, a.sshfrom, a.sshcommand, a.sshoption, Some(g.name)))
  }

  /** The detailed listing names exactly the servers that `generate`
      reaches through the rule. */
  lemma DetailedListsReachedServers(db: Db, a: ServerAccess, s: Server)
    requires a in db.serveraccess && s in db.servers
    ensures Resolution.ServerReached(db, a, s) ==>
      exists x :: x in DetailedRows(db) && x.name == a.name && x.server == Some(s.name) && x.ip == Some(s.ip)
  {
    ServerSideReached(db, a, s);
    if Resolution.ServerReached(db, a, s) {
      var c :| (s, c) in ServerSide(db, a);
      assert AccessRow(a.name, a.sshuser, Some(s.name), Some(s.ip), a.sshfrom, a.sshcommand, a.sshoption, c) in DetailedRows(db);
    }
  }

  /** Conversely, every detailed row is a server some rule of that name
      reaches. */
  lemma DetailedRowsReached(db: Db, x: AccessRow)
    requires x in DetailedRows(db)
    ensures exists a, s :: (
      && a in db.serveraccess && s in db.servers && Resolution.ServerReached(db, a, s)
      && x.name == a.name && x.sshuser == a.sshuser && x.server == Some(s.name) && x.ip == Some(s.ip))
  {
    var a, p :| a in db.serveraccess && p in ServerSide(db, a)
      && x == AccessRow(a.name, a.sshuser, Some(p.0.name), Some(p.0.ip), a.sshfrom, a.sshcommand, a.sshoption, p.1);
    assert p.0 in db.servers;
    ServerSideReached(db, a, p.0);
  }

  /** A group rule whose group covers no server does not show in the
      detailed listing at all. */
  lemma EmptyGroupRuleHidden(db: Db, a: ServerAccess)
    requires RulesUnique(db.serveraccess) && a in db.serveraccess && a.serverId.None?
    requires forall s :: s in db.servers ==> !Resolution.ServerReached(db, a, s)
    ensures forall x :: x in DetailedRows(db) ==> x.name != a.name
  {
    forall x | x in DetailedRows(db)
      ensures x.name != a.name
    {
      DetailedRowsReached(db, x);
    }
  }

  /** Every rule with an existing target shows in the summary. */
  lemma EveryRuleSummarised(db: Db, a: ServerAccess)
    requires a in db.serveraccess && ExactlyOneTarget(a) && TargetExists(a, db.servers, db.servergroups)
    ensures exists x :: x in SummaryRows(db) && x.name == a.name && x.sshuser == a.sshuser
  {
    if a.serverId.Some? {
      var s :| s in db.servers && s.id == a.serverId.value;
      assert AccessRow(a.name, a.sshuser, Some(s.name), Some(s.ip), a.sshfrom, a.sshcommand, a.sshoption, Some("-")) in SummaryRows(db);
    } else {
      var g :| g in db.servergroups && g.id == a.servergroupId.value;
      assert AccessRow(a.name, a.sshuser, Some("-"), None, a.sshfrom, a.sshcommand, a.sshoption, Some(g.name)) in SummaryRows(db);
    }
  }

  /** The summary query is used only when no filter and no `--json` is
      given. */
  predicate UsesDetailedQuery(name: Option<string>, server: Option<string>, ip: Option<string>, user: Option<string>,
                              servergroup: Option<string>, json: bool)
  {
    name.Some? || server.Some? || ip.Some? || user.Some? || servergroup.Some? || json
  }

  /** The conditions the filters keep a row under. */
  predicate Kept(x: AccessRow, name: Option<string>, server: Option<string>, ip: Option<string>, user: Option<string>,
                 servergroup: Option<string>, exact: bool)
  {
    && (name.None? || Listing.Matches(exact, x.name, name.value))
    && (ip.None? || Listing.OptMatchesCase(exact, x.ip, ip.value))
    && (server.None? || Listing.OptMatches(exact, x.server, server.value))
    && (user.None? || Listing.Matches(exact, x.sshuser, user.value))
    && (servergroup.None? || Listing.OptMatches(exact, x.servergroup, servergroup.value))
  }

  /** `serveraccess list`: name, ip, server, user and server group filters,
      in that order, over the rows in query order. */
  function ListServerAccess(rows: seq<AccessRow>, name: Option<string>, server: Option<string>, ip: Option<string>,
                            user: Option<string>, servergroup: Option<string>, exact: bool): (r: seq<AccessRow>)
    ensures Listing.IsSubseq(r, rows)
    ensures forall x :: x in r <==> x in rows && Kept(x, name, server, ip, user, servergroup, exact)
  {
    var a := Listing.FilterText(rows, name, exact, (x: AccessRow) => x.name);
    var b := Listing.FilterWith(a, ip, (x: AccessRow, f: string) => Listing.OptMatchesCase(exact, x.ip, f));
    var c := Listing.FilterOptText(b, server, exact, (x: AccessRow) => x.server);
    var d := Listing.FilterText(c, user, exact, (x: AccessRow) => x.sshuser);
    var e := Listing.FilterOptText(d, servergroup, exact, (x: AccessRow) => x.servergroup);
    Listing.IsSubseqTrans(b, a, rows);
    Listing.IsSubseqTrans(c, b, rows);
    Listing.IsSubseqTrans(d, c, rows);
    Listing.IsSubseqTrans(e, d, rows);
    e
  }

  /** An ip, server or servergroup filter never keeps a row whose column is
      absent: the detailed rows of group rules, whose ip and server columns
      are NULL, drop out of an ip or server filter, and server rules drop out
      of a servergroup filter. */
  lemma FiltersDropAbsent(rows: seq<AccessRow>, name: Option<string>, server: Option<string>, ip: Option<string>,
                          user: Option<string>, servergroup: Option<string>, exact: bool, x: AccessRow)
    requires x in ListServerAccess(rows, name, server, ip, user, servergroup, exact)
    ensures ip.Some? ==> x.ip.Some?
    ensures server.Some? ==> x.server.Some?
    ensures servergroup.Some? ==> x.servergroup.Some?
  {
  }
}
