/** The grant resolution query of `generate` (src/serverauth.rs, and its
    older copy `generate_serverauth` in src/generate.rs): which
    (user, key, server, rule) combinations end up in authorized_keys.

    The query joins every grant with the users it reaches, the server
    access rule it names, the servers that rule reaches and the users' keys,
    then keeps enabled users, enabled servers and unexpired grants. The user
    side is `LEFT JOIN (group membership rows) ... JOIN "user" ON
    utug.user_id = "user".id OR useraccess.user_id = "user".id`; because the
    projection drops the group columns, the users a grant reaches are the
    union of its direct user and the members of every group it covers. The
    server side is symmetric. */
module Resolution {
  import opened Wrappers
  import Text
  import Closure
  import opened Schema

  /** A grant to group `granted` covers the members of group `h` when `h` is
      that group or `granted` is among the transitive supergroups of `h`. */
  predicate Covers(nesting: set<Closure.Edge>, granted: int, h: int)
  {
    granted == h || granted in Closure.Ancestors(nesting, h)
  }

  /** The user side of the join. */
  predicate UserReached(db: Db, ua: UserAccess, u: User)
  {
    || ua.userId == Some(u.id)
    || (ua.usergroupId.Some? &&
        exists m :: m in db.userInGroup && m.0 == u.id && m.1 in GroupIds(db.usergroups)
          && Covers(db.usergroupNesting, ua.usergroupId.value, m.1))
  }

  /** The server side of the join. */
  predicate ServerReached(db: Db, sa: ServerAccess, s: Server)
  {
    || sa.serverId == Some(s.id)
    || (sa.servergroupId.Some? &&
        exists m :: m in db.serverInGroup && m.0 == s.id && m.1 in GroupIds(db.servergroups)
          && Covers(db.servergroupNesting, sa.servergroupId.value, m.1))
  }

  /** One projected result row. */
  datatype AuthRow = AuthRow(
    userId: int,
    keyId: int,
    ip: string,
    sshuser: string,
    sshfrom: Option<string>,
    sshcommand: Option<string>,
    sshoption: Option<string>,
    sshkey: string,
    email: string,
    comment: Option<string>)

  /** `SUBSTRING(sshkeys.comment, 1, 64)`. */
  const CommentWidth: nat := 64

  function TruncateComment(c: Option<string>): (r: Option<string>)
    ensures r.Some? <==> c.Some?
    ensures r.Some? ==> |r.value| <= CommentWidth && Text.IsPrefix(r.value, c.value)
    ensures r.Some? ==> |r.value| == (if |c.value| <= CommentWidth then |c.value| else CommentWidth)
  {
    if c.Some? then Some(Text.Truncate(c.value, CommentWidth)) else None
  }

  function Project(ua: UserAccess, sa: ServerAccess, u: User, s: Server, k: SshKey): AuthRow
  {
    AuthRow(u.id, k.id, s.ip, sa.sshuser, sa.sshfrom, sa.sshcommand, sa.sshoption,
            k.sshkey, u.email, TruncateComment(k.comment))
  }

  /** The join conditions and the `WHERE` clause for one combination. */
  predicate Selected(db: Db, now: int, ua: UserAccess, sa: ServerAccess, u: User, s: Server, k: SshKey)
  {
    && ua.serveraccessId == sa.id
    && UserReached(db, ua, u)
    && ServerReached(db, sa, s)
    && k.userId == u.id
    && !u.disabled
    && ua.bestBefore > now
    && !s.disabled
  }

  /** `SELECT DISTINCT ...`: the set of projected rows. */
  function Resolve(db: Db, now: int): set<AuthRow>
  {
    set ua, sa, u, s, k | ua in db.useraccess && sa in db.serveraccess && u in db.users
      && s in db.servers && k in db.keys && Selected(db, now, ua, sa, u, s, k)
      :: Project(ua, sa, u, s, k)
  }

  /** The users a grant names, read off the tables without the closure
      function: its own user, or a direct member of the granted group or of
      a group from which the granted group is reached by nesting edges. */
  ghost predicate UserGranted(db: Db, ua: UserAccess, u: User)
  {
    || ua.userId == Some(u.id)
    || (ua.usergroupId.Some? &&
        exists m :: m in db.userInGroup && m.0 == u.id && m.1 in GroupIds(db.usergroups)
          && (m.1 == ua.usergroupId.value || Closure.Reaches(db.usergroupNesting, m.1, ua.usergroupId.value)))
  }

  /** The servers a rule names, in the same terms. */
  ghost predicate ServerGranted(db: Db, sa: ServerAccess, s: Server)
  {
    || sa.serverId == Some(s.id)
    || (sa.servergroupId.Some? &&
        exists m :: m in db.serverInGroup && m.0 == s.id && m.1 in GroupIds(db.servergroups)
          && (m.1 == sa.servergroupId.value || Closure.Reaches(db.servergroupNesting, m.1, sa.servergroupId.value)))
  }

  /** Grant `ua`, its rule `sa`, user `u`, server `s` and key `k` give row
      `r`: the grant names the rule, the grant names the user and the rule
      the server, the key is the user's, the `WHERE` clause holds (enabled
      user, `best_before` later than now, enabled server), and the tuple
      projects to `r`. */
  ghost predicate GrantedBy(db: Db, now: int, ua: UserAccess, sa: ServerAccess, u: User, s: Server, k: SshKey, r: AuthRow)
  {
    && ua in db.useraccess && sa in db.serveraccess && u in db.users && s in db.servers && k in db.keys
    && ua.serveraccessId == sa.id
    && UserGranted(db, ua, u)
    && ServerGranted(db, sa, s)
    && k.userId == u.id
    && !u.disabled && now < ua.bestBefore && !s.disabled
    && r == AuthRow(u.id, k.id, s.ip, sa.sshuser, sa.sshfrom, sa.sshcommand, sa.sshoption,
                    k.sshkey, u.email, TruncateComment(k.comment))
  }

  /** A row is granted when some grant, its rule, a user and server they
      name, and one of the user's keys give it. */
  ghost predicate Granted(db: Db, now: int, r: AuthRow)
  {
    exists ua, sa, u, s, k :: GrantedBy(db, now, ua, sa, u, s, k, r)
  }

  lemma UserGrantedIff(db: Db, ua: UserAccess, u: User)
    ensures UserReached(db, ua, u) <==> UserGranted(db, ua, u)
  {
    if ua.usergroupId.Some? {
      var g := ua.usergroupId.value;
      forall h ensures g in Closure.Ancestors(db.usergroupNesting, h) <==> Closure.Reaches(db.usergroupNesting, h, g) {
        Closure.AncestorsIff(db.usergroupNesting, h, g);
      }
    }
  }

  lemma ServerGrantedIff(db: Db, sa: ServerAccess, s: Server)
    ensures ServerReached(db, sa, s) <==> ServerGranted(db, sa, s)
  {
    if sa.servergroupId.Some? {
      var g := sa.servergroupId.value;
      forall h ensures g in Closure.Ancestors(db.servergroupNesting, h) <==> Closure.Reaches(db.servergroupNesting, h, g) {
        Closure.AncestorsIff(db.servergroupNesting, h, g);
      }
    }
  }

  /** The result of the query is exactly the set of granted rows. */
  lemma ResolveGranted(db: Db, now: int, r: AuthRow)
    ensures r in Resolve(db, now) <==> Granted(db, now, r)
  {
    if r in Resolve(db, now) {
      var ua, sa, u, s, k :| ua in db.useraccess && sa in db.serveraccess && u in db.users
        && s in db.servers && k in db.keys && Selected(db, now, ua, sa, u, s, k)
        && r == Project(ua, sa, u, s, k);
      UserGrantedIff(db, ua, u);
      ServerGrantedIff(db, sa, s);
      assert GrantedBy(db, now, ua, sa, u, s, k, r);
    }
    if Granted(db, now, r) {
      var ua, sa, u, s, k :| GrantedBy(db, now, ua, sa, u, s, k, r);
      UserGrantedIff(db, ua, u);
      ServerGrantedIff(db, sa, s);
      assert Selected(db, now, ua, sa, u, s, k) && r == Project(ua, sa, u, s, k);
    }
  }

  /** Every row pairs an enabled user with one of that user's own keys, on
      an enabled server, with the key comment cut to 64 characters. */
  lemma RowFacts(db: Db, now: int, r: AuthRow)
    requires r in Resolve(db, now)
    ensures exists u :: u in db.users && u.id == r.userId && !u.disabled && u.email == r.email
    ensures exists k :: (k in db.keys && k.id == r.keyId && k.userId == r.userId && k.sshkey == r.sshkey
                         && TruncateComment(k.comment) == r.comment)
    ensures exists s :: s in db.servers && s.ip == r.ip && !s.disabled
    ensures r.comment.Some? ==> |r.comment.value| <= CommentWidth
  {
    var ua, sa, u, s, k :| ua in db.useraccess && sa in db.serveraccess && u in db.users
      && s in db.servers && k in db.keys && Selected(db, now, ua, sa, u, s, k)
      && r == Project(ua, sa, u, s, k);
  }

  /** A user group grant reaches exactly the direct members of the granted
      group and the members of its transitive subgroups. */
  lemma UserReachedIff(db: Db, ua: UserAccess, u: User, g: int)
    requires ua.userId.None? && ua.usergroupId == Some(g)
    ensures UserReached(db, ua, u) <==>
      exists m :: m in db.userInGroup && m.0 == u.id && m.1 in GroupIds(db.usergroups)
        && (m.1 == g || Closure.Reaches(db.usergroupNesting, m.1, g))
  {
    forall h ensures g in Closure.Ancestors(db.usergroupNesting, h) <==> Closure.Reaches(db.usergroupNesting, h, g) {
      Closure.AncestorsIff(db.usergroupNesting, h, g);
    }
  }

  /** The same for a server group target. */
  lemma ServerReachedIff(db: Db, sa: ServerAccess, s: Server, g: int)
    requires sa.serverId.None? && sa.servergroupId == Some(g)
    ensures ServerReached(db, sa, s) <==>
      exists m :: m in db.serverInGroup && m.0 == s.id && m.1 in GroupIds(db.servergroups)
        && (m.1 == g || Closure.Reaches(db.servergroupNesting, m.1, g))
  {
    forall h ensures g in Closure.Ancestors(db.servergroupNesting, h) <==> Closure.Reaches(db.servergroupNesting, h, g) {
      Closure.AncestorsIff(db.servergroupNesting, h, g);
    }
  }

  /** A grant expires at its `best_before` instant: the comparison is
      strict, so later instants only remove rows. */
  lemma ExpiryMonotone(db: Db, now1: int, now2: int)
    requires now1 <= now2
    ensures Resolve(db, now2) <= Resolve(db, now1)
  {
  }

  /** Grants whose expiry has been reached contribute nothing: with every
      grant expired, nothing is resolved. */
  lemma AllExpired(db: Db, now: int)
    requires forall ua :: ua in db.useraccess ==> ua.bestBefore <= now
    ensures Resolve(db, now) == {}
  {
  }

  function DisableUser(db: Db, id: int): Db
  {
    db.(users := set u | u in db.users :: if u.id == id then u.(disabled := true) else u)
  }

  function DisableServer(db: Db, id: int): Db
  {
    db.(servers := set s | s in db.servers :: if s.id == id then s.(disabled := true) else s)
  }

  /** Disabling a user removes exactly that user's rows. */
  lemma DisableUserRemovesOnlyTheirs(db: Db, now: int, id: int)
    ensures Resolve(DisableUser(db, id), now) == set r | r in Resolve(db, now) && r.userId != id
  {
    var db' := DisableUser(db, id);
    forall r | r in Resolve(db', now)
      ensures r in Resolve(db, now) && r.userId != id
    {
      var ua, sa, u, s, k :| ua in db'.useraccess && sa in db'.serveraccess && u in db'.users
        && s in db'.servers && k in db'.keys && Selected(db', now, ua, sa, u, s, k)
        && r == Project(ua, sa, u, s, k);
      assert u in db.users;
      assert Selected(db, now, ua, sa, u, s, k);
    }
    forall r | r in Resolve(db, now) && r.userId != id
      ensures r in Resolve(db', now)
    {
      var ua, sa, u, s, k :| ua in db.useraccess && sa in db.serveraccess && u in db.users
        && s in db.servers && k in db.keys && Selected(db, now, ua, sa, u, s, k)
        && r == Project(ua, sa, u, s, k);
      assert u in db'.users;
      assert Selected(db', now, ua, sa, u, s, k);
    }
  }

  /** Disabling a server removes exactly the rows on that server's IP,
      provided IPs are unique. */
  lemma DisableServerRemovesOnlyItsRows(db: Db, now: int, id: int, ip: string)
    requires ServerColumnsUnique(db.servers)
    requires exists s :: s in db.servers && s.id == id && s.ip == ip
    ensures Resolve(DisableServer(db, id), now) == set r | r in Resolve(db, now) && r.ip != ip
  {
    var db' := DisableServer(db, id);
    var t :| t in db.servers && t.id == id && t.ip == ip;
    forall r | r in Resolve(db', now)
      ensures r in Resolve(db, now) && r.ip != ip
    {
      var ua, sa, u, s, k :| ua in db'.useraccess && sa in db'.serveraccess && u in db'.users
        && s in db'.servers && k in db'.keys && Selected(db', now, ua, sa, u, s, k)
        && r == Project(ua, sa, u, s, k);
      var s0 :| s0 in db.servers && s == (if s0.id == id then s0.(disabled := true) else s0);
      assert s0 == s;
      assert Selected(db, now, ua, sa, u, s, k);
      assert s != t;
    }
    forall r | r in Resolve(db, now) && r.ip != ip
      ensures r in Resolve(db', now)
    {
      var ua, sa, u, s, k :| ua in db.useraccess && sa in db.serveraccess && u in db.users
        && s in db.servers && k in db.keys && Selected(db, now, ua, sa, u, s, k)
        && r == Project(ua, sa, u, s, k);
      assert s != t;
      assert s.id != id;
      assert s in db'.servers;
      assert Selected(db', now, ua, sa, u, s, k);
    }
  }
}
