/** `useraccess list` (src/useraccess.rs, and `list_useraccess` in
    src/list.rs): which grants are shown, under the `--expired` and
    `--disabled` toggles, and the client-side filters. The `until` column is
    the grant's expiry on the time line `NOW()` is read on. */
module GrantList {
  import opened Wrappers
  import opened Schema
  import Listing
  import Resolution
  import ServerAccessRules

  /** A row of the listing. */
  datatype GrantRow = GrantRow(
    email: string,
    usergroup: Option<string>,
    serveraccess: string,
    sshuser: string,
    ip: Option<string>,
    servername: Option<string>,
    servergroup: Option<string>,
    until: int)

  /** The users a grant is joined with in the detailed query, each with the
      usergroup column of its row: a direct grant's user with no group; for
      a group grant, every user whose direct group `g` the granted group
      covers, with `g`'s name. */
  function UserSide(db: Db, ua: UserAccess): set<(User, Option<string>)>
  {
    (set u | u in db.users && ua.userId == Some(u.id) :: (u, None))
    + (set g, m, u | g in db.usergroups && m in db.userInGroup && u in db.users
         && ua.usergroupId.Some? && m.0 == u.id && m.1 == g.id
         && Resolution.Covers(db.usergroupNesting, ua.usergroupId.value, g.id)
       :: (u, Some(g.name)))
  }

  /** The users of the listing are the users `generate` reaches. */
  lemma UserSideReached(db: Db, ua: UserAccess, u: User)
    requires u in db.users
    ensures (exists c :: (u, c) in UserSide(db, ua)) <==> Resolution.UserReached(db, ua, u)
  {
    if Resolution.UserReached(db, ua, u) {
      if ua.userId == Some(u.id) {
        assert (u, None) in UserSide(db, ua);
      } else {
        var m :| m in db.userInGroup && m.0 == u.id && m.1 in GroupIds(db.usergroups)
          && Resolution.Covers(db.usergroupNesting, ua.usergroupId.value, m.1);
        var g :| g in db.usergroups && g.id == m.1;
        assert (u, Some(g.name)) in UserSide(db, ua);
      }
    }
    if exists c :: (u, c) in UserSide(db, ua) {
      var c :| (u, c) in UserSide(db, ua);
      if c.Some? {
        var g, m, u' :| g in db.usergroups && m in db.userInGroup && u' in db.users
          && ua.usergroupId.Some? && m.0 == u'.id && m.1 == g.id
          && Resolution.Covers(db.usergroupNesting, ua.usergroupId.value, g.id)
          && (u, c) == (u', Some(g.name));
        assert m.1 in GroupIds(db.usergroups);
      }
    }
  }

  /** The expiry condition: `best_before >= NOW()`, which `--expired` turns
      into `best_before < NOW()`. */
  predicate ExpiryShown(expired: bool, bestBefore: int, now: int)
  {
    if expired then bestBefore < now else bestBefore >= now
  }

  /** The enabled condition: `NOT user.disabled AND NOT server.disabled`,
      which `--disabled` turns into `(user.disabled OR server.disabled)`. */
  predicate EnabledShown(disabled: bool, u: User, s: Server)
  {
    if disabled then u.disabled || s.disabled else !u.disabled && !s.disabled
  }

  /** The `WHERE` clause of the detailed query under the two toggles. */
  predicate Shown(now: int, expired: bool, disabled: bool, ua: UserAccess, u: User, s: Server)
  {
    EnabledShown(disabled, u, s) && ExpiryShown(expired, ua.bestBefore, now)
  }

  /** The detailed query's row for grant `ua` of rule `a`, joined with user
      `up.0` (usergroup column `up.1`) and server `sp.0` (servergroup column
      `sp.1`). */
  function DetailedRow(ua: UserAccess, a: ServerAccess, up: (User, Option<string>), sp: (Server, Option<string>)): GrantRow
  {
    GrantRow(up.0.email, up.1, a.name, a.sshuser, Some(sp.0.ip), Some(sp.0.name), sp.1, ua.bestBefore)
  }

  /** The detailed query: one row per grant, user and server it is joined
      with that the `WHERE` clause keeps. */
  function DetailedRows(db: Db, now: int, expired: bool, disabled: bool): set<GrantRow>
  {
    set ua, a, up, sp | ua in db.useraccess && a in db.serveraccess && ua.serveraccessId == a.id
      && up in UserSide(db, ua) && sp in ServerAccessRules.ServerSide(db, a)
      && Shown(now, expired, disabled, ua, up.0, sp.0)
      :: DetailedRow(ua, a, up, sp)
  }

  /** The rows the detailed query gives without any `WHERE` clause. */
  function JoinedRows(db: Db): set<GrantRow>
  {
    set ua, a, up, sp | ua in db.useraccess && a in db.serveraccess && ua.serveraccessId == a.id
      && up in UserSide(db, ua) && sp in ServerAccessRules.ServerSide(db, a)
      :: DetailedRow(ua, a, up, sp)
  }

  /** `--expired` and the default view never list the same row: the
      default view shows rows expiring now or later, `--expired` rows that
      expired before now. */
  lemma ExpiredDisjoint(db: Db, now: int, disabled: bool)
    ensures DetailedRows(db, now, false, disabled) * DetailedRows(db, now, true, disabled) == {}
  {
    forall x | x in DetailedRows(db, now, false, disabled)
      ensures x.until >= now
    {
    }
    forall x | x in DetailedRows(db, now, true, disabled)
      ensures x.until < now
    {
    }
  }

  /** Together the two views hold exactly the joined rows that pass the
      enabled condition. */
  lemma ExpiredCovers(db: Db, now: int, disabled: bool)
    ensures forall x :: x in DetailedRows(db, now, false, disabled) + DetailedRows(db, now, true, disabled) <==>
      exists ua, a, up, sp :: (
        && ua in db.useraccess && a in db.serveraccess && ua.serveraccessId == a.id
        && up in UserSide(db, ua) && sp in ServerAccessRules.ServerSide(db, a)
        && EnabledShown(disabled, up.0, sp.0)
        && x == DetailedRow(ua, a, up, sp))
  {
  }

  /** `--disabled` lists exactly the joined rows of the same expiry that the
      default view leaves out for a disabled user or server. */
  lemma DisabledComplements(db: Db, now: int, expired: bool)
    ensures forall x :: x in DetailedRows(db, now, expired, false) + DetailedRows(db, now, expired, true) <==>
      exists ua, a, up, sp :: (
        && ua in db.useraccess && a in db.serveraccess && ua.serveraccessId == a.id
        && up in UserSide(db, ua) && sp in ServerAccessRules.ServerSide(db, a)
        && ExpiryShown(expired, ua.bestBefore, now)
        && x == DetailedRow(ua, a, up, sp))
    ensures forall ua, u, s :: Shown(now, expired, false, ua, u, s) ==> !Shown(now, expired, true, ua, u, s)
  {
  }

  /** Everything `generate` emits is listed by the default view: each
      resolved row has a listing row for the same user, rule, server and
      expiry. */
  lemma GeneratedIsListed(db: Db, now: int, ua: UserAccess, a: ServerAccess, u: User, s: Server, k: SshKey)
    requires ua in db.useraccess && a in db.serveraccess && u in db.users && s in db.servers && k in db.keys
    requires Resolution.Selected(db, now, ua, a, u, s, k)
    ensures exists x :: (
      && x in DetailedRows(db, now, false, false)
      && x.email == u.email && x.serveraccess == a.name && x.sshuser == a.sshuser
      && x.ip == Some(s.ip) && x.until == ua.bestBefore)
  {
    UserSideReached(db, ua, u);
    ServerAccessRules.ServerSideReached(db, a, s);
    var cu :| (u, cu) in UserSide(db, ua);
    var cs :| (s, cs) in ServerAccessRules.ServerSide(db, a);
    assert DetailedRow(ua, a, (u, cu), (s, cs)) in DetailedRows(db, now, false, false);
  }

  /** The listing's `>=` and generation's `>` disagree at the boundary: a
      grant whose expiry is exactly `NOW()` is listed as current, yet
      `generate` emits nothing for it. */
  lemma ExpiryBoundary(db: Db, now: int, ua: UserAccess, a: ServerAccess, u: User, s: Server)
    requires ua in db.useraccess && a in db.serveraccess && u in db.users && s in db.servers
    requires ua.serveraccessId == a.id && ua.bestBefore == now
    requires Resolution.UserReached(db, ua, u) && Resolution.ServerReached(db, a, s)
    requires !u.disabled && !s.disabled
    ensures exists x :: x in DetailedRows(db, now, false, false) && x.email == u.email && x.until == now
    ensures forall k :: !Resolution.Selected(db, now, ua, a, u, s, k)
  {
    UserSideReached(db, ua, u);
    ServerAccessRules.ServerSideReached(db, a, s);
    var cu :| (u, cu) in UserSide(db, ua);
    var cs :| (s, cs) in ServerAccessRules.ServerSide(db, a);
    assert DetailedRow(ua, a, (u, cu), (s, cs)) in DetailedRows(db, now, false, false);
  }

  /** The summary query's row for a user's grant of a server rule. */
  function UserServerRow(ua: UserAccess, a: ServerAccess, u: User, s: Server): GrantRow
  {
    GrantRow(u.email, Some("-"), a.name, a.sshuser, Some(s.ip), Some(s.name), Some("-"), ua.bestBefore)
  }

  /** The first branch of the summary query: a user's grant of a server
      rule. The current layout drops disabled users; the older
      `list_useraccess` (`oldLayout`) does not. */
  function UserServerRows(db: Db, now: int, expired: bool, oldLayout: bool): set<GrantRow>
  {
    set ua, a, u, s | ua in db.useraccess && a in db.serveraccess && u in db.users && s in db.servers
       && ua.serveraccessId == a.id && ua.userId == Some(u.id) && a.serverId == Some(s.id)
       && !s.disabled && (oldLayout || !u.disabled) && ExpiryShown(expired, ua.bestBefore, now)
       :: UserServerRow(ua, a, u, s)
  }

  /** A user's grant of a server group rule. */
  function UserGroupRuleRow(ua: UserAccess, a: ServerAccess, u: User, g: Group): GrantRow
  {
    GrantRow(u.email, Some("-"), a.name, a.sshuser, None, Some("-"), Some(g.name), ua.bestBefore)
  }

  function UserGroupRuleRows(db: Db, now: int, expired: bool, oldLayout: bool): set<GrantRow>
  {
    set ua, a, u, g | ua in db.useraccess && a in db.serveraccess && u in db.users && g in db.servergroups
       && ua.serveraccessId == a.id && ua.userId == Some(u.id) && a.servergroupId == Some(g.id)
       && (oldLayout || !u.disabled) && ExpiryShown(expired, ua.bestBefore, now)
       :: UserGroupRuleRow(ua, a, u, g)
  }

  /** A user group's grant of a server rule; the email column is `-`. */
  function GroupServerRow(ua: UserAccess, a: ServerAccess, h: Group, s: Server): GrantRow
  {
    GrantRow("-", Some(h.name), a.name, a.sshuser, Some(s.ip), Some(s.name), Some("-"), ua.bestBefore)
  }

  function GroupServerRows(db: Db, now: int, expired: bool): set<GrantRow>
  {
    set ua, a, h, s | ua in db.useraccess && a in db.serveraccess && h in db.usergroups && s in db.servers
       && ua.serveraccessId == a.id && ua.usergroupId == Some(h.id) && a.serverId == Some(s.id)
       && !s.disabled && ExpiryShown(expired, ua.bestBefore, now)
       :: GroupServerRow(ua, a, h, s)
  }

  /** A user group's grant of a server group rule. */
  function GroupGroupRuleRow(ua: UserAccess, a: ServerAccess, h: Group, g: Group): GrantRow
  {
    GrantRow("-", Some(h.name), a.name, a.sshuser, None, Some("-"), Some(g.name), ua.bestBefore)
  }

  function GroupGroupRuleRows(db: Db, now: int, expired: bool): set<GrantRow>
  {
    set ua, a, h, g | ua in db.useraccess && a in db.serveraccess && h in db.usergroups && g in db.servergroups
       && ua.serveraccessId == a.id && ua.usergroupId == Some(h.id) && a.servergroupId == Some(g.id)
       && ExpiryShown(expired, ua.bestBefore, now)
       :: GroupGroupRuleRow(ua, a, h, g)
  }

  /** The summary query, used when no filter, `--disabled` or `--json` is
      given: one row per grant, naming the user or the user group and the
      server or the server group, with `-` for the side not set. */
  function SummaryRows(db: Db, now: int, expired: bool, oldLayout: bool): set<GrantRow>
  {
    UserServerRows(db, now, expired, oldLayout) + UserGroupRuleRows(db, now, expired, oldLayout)
    + GroupServerRows(db, now, expired) + GroupGroupRuleRows(db, now, expired)
  }

  /** The older summary shows a disabled user's direct grant, which the
      current summary hides. */
  lemma OldSummaryShowsDisabledUsers(db: Db, now: int, ua: UserAccess, a: ServerAccess, u: User, s: Server)
    requires forall v, w :: v in db.users && w in db.users && v.email == w.email ==> v == w
    requires ua in db.useraccess && a in db.serveraccess && u in db.users && s in db.servers
    requires ua.serveraccessId == a.id && ua.userId == Some(u.id) && a.serverId == Some(s.id)
    requires u.disabled && !s.disabled && ua.bestBefore >= now && u.email != "-"
    ensures GrantRow(u.email, Some("-"), a.name, a.sshuser, Some(s.ip), Some(s.name), Some("-"), ua.bestBefore)
            in SummaryRows(db, now, false, true)
    ensures forall x :: x in SummaryRows(db, now, false, false) ==> x.email != u.email
  {
    assert UserServerRow(ua, a, u, s) in UserServerRows(db, now, false, true);
    forall x | x in UserServerRows(db, now, false, false) + UserGroupRuleRows(db, now, false, false)
      ensures x.email != u.email
    {
    }
    forall x | x in GroupServerRows(db, now, false) + GroupGroupRuleRows(db, now, false)
      ensures x.email != u.email
    {
    }
  }

  /** The summary query is used only when no filter, `--disabled` or
      `--json` is given. */
  predicate UsesDetailedQuery(email: Option<string>, servername: Option<string>, ip: Option<string>,
                              user: Option<string>, serveraccess: Option<string>, servergroup: Option<string>,
                              usergroup: Option<string>, disabled: bool, json: bool)
  {
    || email.Some? || servername.Some? || ip.Some? || user.Some? || serveraccess.Some?
    || servergroup.Some? || usergroup.Some? || disabled || json
  }

  /** The conditions the filters keep a row under. */
  predicate Kept(x: GrantRow, email: Option<string>, servername: Option<string>, ip: Option<string>,
                 user: Option<string>, serveraccess: Option<string>, servergroup: Option<string>,
                 usergroup: Option<string>, exact: bool)
  {
    && (email.None? || Listing.Matches(exact, x.email, email.value))
    && (ip.None? || Listing.OptMatchesCase(exact, x.ip, ip.value))
    && (servername.None? || Listing.OptMatches(exact, x.servername, servername.value))
    && (user.None? || Listing.Matches(exact, x.sshuser, user.value))
    && (serveraccess.None? || Listing.Matches(exact, x.serveraccess, serveraccess.value))
    && (servergroup.None? || Listing.OptMatches(exact, x.servergroup, servergroup.value))
    && (usergroup.None? || Listing.OptMatches(exact, x.usergroup, usergroup.value))
  }

  /** The client-side filters of `useraccess list`, in the command's order:
      email, ip, server name, ssh user, rule, server group, user group. */
  function ListGrants(rows: seq<GrantRow>, email: Option<string>, servername: Option<string>, ip: Option<string>,
                      user: Option<string>, serveraccess: Option<string>, servergroup: Option<string>,
                      usergroup: Option<string>, exact: bool): (r: seq<GrantRow>)
    ensures Listing.IsSubseq(r, rows)
    ensures forall x :: x in r <==> x in rows && Kept(x, email, servername, ip, user, serveraccess, servergroup, usergroup, exact)
  {
    var a := Listing.FilterText(rows, email, exact, (x: GrantRow) => x.email);
    var b := Listing.FilterWith(a, ip, (x: GrantRow, f: string) => Listing.OptMatchesCase(exact, x.ip, f));
    var c := Listing.FilterOptText(b, servername, exact, (x: GrantRow) => x.servername);
    var d := Listing.FilterText(c, user, exact, (x: GrantRow) => x.sshuser);
    var e := Listing.FilterText(d, serveraccess, exact, (x: GrantRow) => x.serveraccess);
    var f := Listing.FilterOptText(e, servergroup, exact, (x: GrantRow) => x.servergroup);
    var g := Listing.FilterOptText(f, usergroup, exact, (x: GrantRow) => x.usergroup);
    Listing.IsSubseqTrans(b, a, rows);
    Listing.IsSubseqTrans(c, b, rows);
    Listing.IsSubseqTrans(d, c, rows);
    Listing.IsSubseqTrans(e, d, rows);
    Listing.IsSubseqTrans(f, e, rows);
    Listing.IsSubseqTrans(g, f, rows);
    g
  }
}
