/** The database as in-memory relations. Every table is a finite set of
    records; nullable columns are `Option`s; ids are integers; timestamps
    are integers on one time line; IP addresses are held as their canonical
    text. The four link tables are sets of id pairs. */
module Schema {
  import opened Wrappers
  import Closure

  /** The `usertype` enum (`AD user`, `tool user`, `external user`). */
  datatype UserType = AD | Tool | External

  datatype User = User(
    id: int,
    email: string,
    name: string,
    userType: UserType,
    disabled: bool,
    comment: Option<string>)

  datatype SshKey = SshKey(
    id: int,
    userId: int,
    sshkey: string,
    fingerprint: string,
    comment: Option<string>)

  datatype Server = Server(
    id: int,
    name: string,
    ip: string,
    disabled: bool,
    useDns: bool,
    comment: Option<string>)

  /** A row of `usergroup` or `servergroup`. */
  datatype Group = Group(id: int, name: string, comment: Option<string>)

  /** A server-side rule: the remote account, the optional key options and
      exactly one target, a server or a server group. */
  datatype ServerAccess = ServerAccess(
    id: int,
    name: string,
    sshuser: string,
    sshfrom: Option<string>,
    sshcommand: Option<string>,
    sshoption: Option<string>,
    serverId: Option<int>,
    servergroupId: Option<int>,
    comment: Option<string>)

  /** A grant: a user or a user group, a server access rule, an expiry. */
  datatype UserAccess = UserAccess(
    id: int,
    userId: Option<int>,
    usergroupId: Option<int>,
    serveraccessId: int,
    bestBefore: int,
    comment: Option<string>)

  /** A row of a membership table: (member id, group id). */
  type Membership = (int, int)

  datatype Db = Db(
    users: set<User>,
    keys: set<SshKey>,
    servers: set<Server>,
    usergroups: set<Group>,
    servergroups: set<Group>,
    serveraccess: set<ServerAccess>,
    useraccess: set<UserAccess>,
    userInGroup: set<Membership>,
    serverInGroup: set<Membership>,
    usergroupNesting: set<Closure.Edge>,
    servergroupNesting: set<Closure.Edge>)

  function GroupIds(groups: set<Group>): set<int>
  {
    set g | g in groups :: g.id
  }

  /** Server ids, names and IPs are unique columns. */
  predicate ServerColumnsUnique(servers: set<Server>)
  {
    forall s, t :: s in servers && t in servers && s != t ==> s.id != t.id && s.name != t.name && s.ip != t.ip
  }
}
