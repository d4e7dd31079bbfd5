/** `servergroup list` and `usergroup list` (src/servergroup.rs,
    src/usergroup.rs). The detailed query lists each member under its direct
    group and under every transitive supergroup of that group, and a group
    without members once with no member; the client-side filters then keep an
    order-preserving subsequence. The `subgroups` display column is not
    modelled. */
module GroupList {
  import opened Wrappers
  import Text
  import Closure
  import opened Schema
  import Resolution
  import Listing

  /** One listed row: the group, the member (a server name or a user email)
      with the server's IP, and the group comment. */
  datatype MemberRow = MemberRow(group: string, member: Option<string>, ip: Option<string>, comment: Option<string>)

  /** Server `s` is listed under group `g`: it is a direct member of `g` or of
      a group of which `g` is a transitive supergroup. */
  predicate ServerUnder(db: Db, g: Group, s: Server)
  {
    exists m :: m in db.serverInGroup && m.0 == s.id && Resolution.Covers(db.servergroupNesting, g.id, m.1)
  }

  predicate UserUnder(db: Db, g: Group, u: User)
  {
    exists m :: m in db.userInGroup && m.0 == u.id && Resolution.Covers(db.usergroupNesting, g.id, m.1)
  }

  /** The rows of the detailed `servergroup` query (`LEFT JOIN` with the
      membership-or-supergroup condition, then `DISTINCT`). */
  function ServerGroupRows(db: Db): set<MemberRow>
  {
    (set g, s | g in db.servergroups && s in db.servers && ServerUnder(db, g, s)
       :: MemberRow(g.name, Some(s.name), Some(s.ip), g.comment))
    + (set g | g in db.servergroups && !(exists s :: s in db.servers && ServerUnder(db, g, s))
       :: MemberRow(g.name, None, None, g.comment))
  }

  /** The rows of the detailed `usergroup` query. */
  function UserGroupRows(db: Db): set<MemberRow>
  {
    (set g, u | g in db.usergroups && u in db.users && UserUnder(db, g, u)
       :: MemberRow(g.name, Some(u.email), None, g.comment))
    + (set g | g in db.usergroups && !(exists u :: u in db.users && UserUnder(db, g, u))
       :: MemberRow(g.name, None, None, g.comment))
  }

  /** A server is listed under every transitive supergroup of a group it
      belongs to, and only there. */
  lemma ServerListedUnderSupergroups(db: Db, g: Group, s: Server)
    requires g in db.servergroups && s in db.servers
    ensures MemberRow(g.name, Some(s.name), Some(s.ip), g.comment) in ServerGroupRows(db) <==>
      exists g', s', m :: (
        && g' in db.servergroups && s' in db.servers && m in db.serverInGroup
        && g'.name == g.name && g'.comment == g.comment && s'.name == s.name && s'.ip == s.ip
        && m.0 == s'.id && (m.1 == g'.id || Closure.Reaches(db.servergroupNesting, m.1, g'.id)))
  {
    var row := MemberRow(g.name, Some(s.name), Some(s.ip), g.comment);
    if row in ServerGroupRows(db) {
      var g', s' :| g' in db.servergroups && s' in db.servers && ServerUnder(db, g', s')
        && row == MemberRow(g'.name, Some(s'.name), Some(s'.ip), g'.comment);
      var m := CoveringMembership(db, g', s');
      assert m.1 == g'.id || Closure.Reaches(db.servergroupNesting, m.1, g'.id);
    }
    if exists g', s', m :: (
        && g' in db.servergroups && s' in db.servers && m in db.serverInGroup
        && g'.name == g.name && g'.comment == g.comment && s'.name == s.name && s'.ip == s.ip
        && m.0 == s'.id && (m.1 == g'.id || Closure.Reaches(db.servergroupNesting, m.1, g'.id))) {
      var g', s', m :| && g' in db.servergroups && s' in db.servers && m in db.serverInGroup
        && g'.name == g.name && g'.comment == g.comment && s'.name == s.name && s'.ip == s.ip
        && m.0 == s'.id && (m.1 == g'.id || Closure.Reaches(db.servergroupNesting, m.1, g'.id));
      Closure.AncestorsIff(db.servergroupNesting, m.1, g'.id);
      assert ServerUnder(db, g', s');
      assert MemberRow(g'.name, Some(s'.name), Some(s'.ip), g'.comment) == row;
    }
  }

  /** The membership that puts `s` under `g`, with the nesting it goes
      through spelled out as reachability. */
  lemma CoveringMembership(db: Db, g: Group, s: Server) returns (m: (int, int))
    requires ServerUnder(db, g, s)
    ensures m in db.serverInGroup && m.0 == s.id
    ensures m.1 == g.id || Closure.Reaches(db.servergroupNesting, m.1, g.id)
  {
    m :| m in db.serverInGroup && m.0 == s.id && Resolution.Covers(db.servergroupNesting, g.id, m.1);
    Closure.AncestorsIff(db.servergroupNesting, m.1, g.id);
  }

  /** A user is listed under the group they belong to and every transitive
      supergroup of it, and only there. */
  lemma UserListedUnderSupergroups(db: Db, g: Group, u: User)
    requires g in db.usergroups && u in db.users
    ensures MemberRow(g.name, Some(u.email), None, g.comment) in UserGroupRows(db) <==>
      exists g', u', m :: (
        && g' in db.usergroups && u' in db.users && m in db.userInGroup
        && g'.name == g.name && g'.comment == g.comment && u'.email == u.email
        && m.0 == u'.id && (m.1 == g'.id || Closure.Reaches(db.usergroupNesting, m.1, g'.id)))
  {
    var row := MemberRow(g.name, Some(u.email), None, g.comment);
    if row in UserGroupRows(db) {
      var g', u' :| g' in db.usergroups && u' in db.users && UserUnder(db, g', u')
        && row == MemberRow(g'.name, Some(u'.email), None, g'.comment);
      var m := UserCoveringMembership(db, g', u');
      assert m.1 == g'.id || Closure.Reaches(db.usergroupNesting, m.1, g'.id);
    }
    if exists g', u', m :: (
        && g' in db.usergroups && u' in db.users && m in db.userInGroup
        && g'.name == g.name && g'.comment == g.comment && u'.email == u.email
        && m.0 == u'.id && (m.1 == g'.id || Closure.Reaches(db.usergroupNesting, m.1, g'.id))) {
      var g', u', m :| && g' in db.usergroups && u' in db.users && m in db.userInGroup
        && g'.name == g.name && g'.comment == g.comment && u'.email == u.email
        && m.0 == u'.id && (m.1 == g'.id || Closure.Reaches(db.usergroupNesting, m.1, g'.id));
      Closure.AncestorsIff(db.usergroupNesting, m.1, g'.id);
      assert UserUnder(db, g', u');
      assert MemberRow(g'.name, Some(u'.email), None, g'.comment) == row;
    }
  }

  /** The membership that puts `u` under `g`, with the nesting it goes
      through spelled out as reachability. */
  lemma UserCoveringMembership(db: Db, g: Group, u: User) returns (m: (int, int))
    requires UserUnder(db, g, u)
    ensures m in db.userInGroup && m.0 == u.id
    ensures m.1 == g.id || Closure.Reaches(db.usergroupNesting, m.1, g.id)
  {
    m :| m in db.userInGroup && m.0 == u.id && Resolution.Covers(db.usergroupNesting, g.id, m.1);
    Closure.AncestorsIff(db.usergroupNesting, m.1, g.id);
  }

  /** Every group appears in the detailed listing, with or without members. */
  lemma EveryGroupListed(db: Db, g: Group)
    requires g in db.servergroups
    ensures exists r :: r in ServerGroupRows(db) && r.group == g.name
  {
    if exists s :: s in db.servers && ServerUnder(db, g, s) {
      var s :| s in db.servers && ServerUnder(db, g, s);
      assert MemberRow(g.name, Some(s.name), Some(s.ip), g.comment) in ServerGroupRows(db);
    } else {
      assert MemberRow(g.name, None, None, g.comment) in ServerGroupRows(db);
    }
  }

  /** The group named `all`, which the listing hides by default. */
  const AllGroup: string := "all"

  /** The conditions `servergroup list` keeps a row under. */
  predicate ServerGroupKept(r: MemberRow, group: Option<string>, server: Option<string>, ip: Option<string>,
                            exact: bool, all: bool, empty: bool)
  {
    && (all || r.group != AllGroup)
    && (!empty || r.ip.None?)
    && (group.None? || Listing.Matches(exact, r.group, group.value))
    && (server.None? || Listing.OptMatches(exact, r.member, server.value))
    && (ip.None? || Listing.OptMatchesCase(exact, r.ip, ip.value))
  }

  /** `servergroup list`: the `all` filter, `--empty`, then the group, server
      and ip filters, in that order. */
  function ListServerGroups(rows: seq<MemberRow>, group: Option<string>, server: Option<string>, ip: Option<string>,
                            exact: bool, all: bool, empty: bool): (r: seq<MemberRow>)
    ensures Listing.IsSubseq(r, rows)
    ensures forall x :: x in r <==> x in rows && ServerGroupKept(x, group, server, ip, exact, all, empty)
  {
    var a := if all then rows else Listing.Retain(rows, (x: MemberRow) => x.group != AllGroup);
    var b := if empty then Listing.Retain(a, (x: MemberRow) => x.ip.None?) else a;
    var c := Listing.FilterText(b, group, exact, (x: MemberRow) => x.group);
    var d := Listing.FilterOptText(c, server, exact, (x: MemberRow) => x.member);
    var e := Listing.FilterWith(d, ip, (x: MemberRow, f: string) => Listing.OptMatchesCase(exact, x.ip, f));
    Listing.IsSubseqRefl(rows);
    Listing.IsSubseqRefl(a);
    Listing.IsSubseqTrans(b, a, rows);
    Listing.IsSubseqTrans(c, b, rows);
    Listing.IsSubseqTrans(d, c, rows);
    Listing.IsSubseqTrans(e, d, rows);
    e
  }

  /** Without `--all` the `all` group never shows; with it, that filter
      keeps everything. */
  lemma AllHiddenUnlessAsked(rows: seq<MemberRow>, x: MemberRow)
    requires x in ListServerGroups(rows, None, None, None, false, false, false)
    ensures x.group != AllGroup
  {
  }

  /** `--empty` lists member-less groups only, so combined with a server or
      ip filter it lists nothing. */
  lemma EmptyExcludesMemberFilters(rows: seq<MemberRow>, group: Option<string>, server: Option<string>,
                                   ip: Option<string>, exact: bool, all: bool)
    requires server.Some? || ip.Some?
    requires forall x :: x in rows ==> (x.member.None? <==> x.ip.None?)
    ensures forall x :: x !in ListServerGroups(rows, group, server, ip, exact, all, true)
  {
  }

  /** The conditions `usergroup list` keeps a row under. */
  predicate UserGroupKept(r: MemberRow, group: Option<string>, email: Option<string>, exact: bool, empty: bool)
  {
    && (!empty || r.member.None?)
    && (email.None? || Listing.OptMatches(exact, r.member, email.value))
    && (group.None? || Listing.Matches(exact, r.group, group.value))
  }

  /** `usergroup list`: `--empty`, then the email and group-name filters. */
  function ListUserGroups(rows: seq<MemberRow>, group: Option<string>, email: Option<string>, exact: bool, empty: bool)
    : (r: seq<MemberRow>)
    ensures Listing.IsSubseq(r, rows)
    ensures forall x :: x in r <==> x in rows && UserGroupKept(x, group, email, exact, empty)
  {
    var a := if empty then Listing.Retain(rows, (x: MemberRow) => x.member.None?) else rows;
    var b := Listing.FilterOptText(a, email, exact, (x: MemberRow) => x.member);
    var c := Listing.FilterText(b, group, exact, (x: MemberRow) => x.group);
    Listing.IsSubseqRefl(rows);
    Listing.IsSubseqTrans(b, a, rows);
    Listing.IsSubseqTrans(c, b, rows);
    c
  }

  /** An email filter lists only the groups a matching user is reached
      through. */
  lemma EmailFilterListsMembership(db: Db, rows: seq<MemberRow>, email: string, exact: bool, x: MemberRow)
    requires forall y :: y in rows <==> y in UserGroupRows(db)
    requires x in ListUserGroups(rows, None, Some(email), exact, false)
    ensures exists g, u :: (
      && g in db.usergroups && u in db.users && UserUnder(db, g, u)
      && x.group == g.name && x.member == Some(u.email) && Listing.Matches(exact, u.email, email))
  {
  }
}
