/** `generate` and `list serverauth` (src/serverauth.rs): refresh the
    DNS-managed server addresses, resolve the grants, read the rows ordered by
    user id and key id, group them into one authorized_keys file per
    (server IP, remote user), and keep the files whose IP contains the
    requested filter text. */
module AuthorizedKeys {
  import opened Wrappers
  import Text
  import opened Schema
  import opened Resolution
  import opened Format
  import opened Buckets
  import Dns

  // ---------------------------------------------------------------------------
  // The order of the query result
  // ---------------------------------------------------------------------------

  /** `ORDER BY "user".id, sshkeys.id`. */
  predicate RowLe(a: AuthRow, b: AuthRow)
  {
    a.userId < b.userId || (a.userId == b.userId && a.keyId <= b.keyId)
  }

  predicate Distinct(rows: seq<AuthRow>)
  {
    forall i, j :: 0 <= i < j < |rows| ==> rows[i] != rows[j]
  }

  predicate Ordered(rows: seq<AuthRow>)
  {
    forall i, j :: 0 <= i < j < |rows| ==> RowLe(rows[i], rows[j])
  }

  /** `rows` is one order in which the database may deliver `result`: every
      row once, by user id and key id; rows that tie on both come in any
      order. */
  ghost predicate QueryOrder(rows: seq<AuthRow>, result: set<AuthRow>)
  {
    && Distinct(rows)
    && (forall r :: r in rows <==> r in result)
    && Ordered(rows)
  }

  lemma {:induction false} MinExists(s: set<AuthRow>)
    requires s != {}
    ensures exists m :: m in s && forall x :: x in s ==> RowLe(m, x)
    decreases |s|
  {
    var y :| y in s;
    if s == {y} {
      assert forall x :: x in s ==> x == y;
      assert RowLe(y, y);
    } else {
      var rest := s - {y};
      MinExists(rest);
      var m :| m in rest && forall x :: x in rest ==> RowLe(m, x);
      if RowLe(m, y) {
        forall x | x in s ensures RowLe(m, x) {
          if x != y {
            assert x in rest;
          }
        }
      } else {
        forall x | x in s ensures RowLe(y, x) {
          if x != y {
            assert x in rest;
            assert RowLe(m, x);
          }
        }
      }
    }
  }

  /** Delivers the rows of `result` in one order the query allows. */
  method OrderRows(result: set<AuthRow>) returns (rows: seq<AuthRow>)
    ensures QueryOrder(rows, result)
  {
    rows := [];
    var rest := result;
    while rest != {}
      invariant rest <= result
      invariant forall r :: r in rows <==> r in result - rest
      invariant Distinct(rows) && Ordered(rows)
      invariant forall i, x :: 0 <= i < |rows| && x in rest ==> RowLe(rows[i], x)
      decreases |rest|
    {
      MinExists(rest);
      var m :| m in rest && forall x :: x in rest ==> RowLe(m, x);
      assert m !in rows;
      forall i | 0 <= i < |rows| ensures rows[i] != m && RowLe(rows[i], m) {
        assert rows[i] in rows;
      }
      rows := rows + [m];
      rest := rest - {m};
    }
  }

  // ---------------------------------------------------------------------------
  // Buckets of an ordered, duplicate-free row sequence
  // ---------------------------------------------------------------------------

  /** The rows of `result` that belong to bucket `k`. */
  function BucketRows(result: set<AuthRow>, k: BucketKey): set<AuthRow>
  {
    set r | r in result && KeyOf(r) == k
  }

  lemma {:induction false} DistinctCard(rows: seq<AuthRow>)
    requires Distinct(rows)
    ensures |set r | r in rows| == |rows|
    decreases |rows|
  {
    if |rows| > 0 {
      var init := rows[..|rows| - 1];
      var last := rows[|rows| - 1];
      assert rows == init + [last];
      DistinctCard(init);
      assert last !in init;
      assert (set r | r in rows) == (set r | r in init) + {last};
    }
  }

  /** A bucket keeps the order and the distinctness of the rows. */
  lemma {:induction false} SelectKeeps(rows: seq<AuthRow>, k: BucketKey)
    requires Distinct(rows) && Ordered(rows)
    ensures Distinct(Select(rows, k)) && Ordered(Select(rows, k))
    decreases |rows|
  {
    if |rows| > 0 {
      var init := rows[..|rows| - 1];
      var last := rows[|rows| - 1];
      SelectKeeps(init, k);
      var s := Select(init, k);
      if KeyOf(last) == k {
        forall i | 0 <= i < |s| ensures s[i] != last && RowLe(s[i], last) {
          assert s[i] in init;
        }
      }
    }
  }

  /** A bucket holds as many lines as the result has rows for it. */
  lemma BucketSize(rows: seq<AuthRow>, result: set<AuthRow>, k: BucketKey)
    requires QueryOrder(rows, result)
    ensures |Lines(Select(rows, k))| == |BucketRows(result, k)|
  {
    var s := Select(rows, k);
    SelectKeeps(rows, k);
    DistinctCard(s);
    assert (set r | r in s) == BucketRows(result, k);
  }

  // ---------------------------------------------------------------------------
  // The generator
  // ---------------------------------------------------------------------------

  /** Which server addresses a listing keeps: all of them, those that
      contain the `--ip` text, or exactly one address. */
  datatype IpFilter = AnyIp | IpContains(text: string) | IpIs(addr: string)

  predicate Passes(f: IpFilter, addr: string)
  {
    match f
    case AnyIp => true
    case IpContains(text) => Text.Contains(addr, text)
    case IpIs(a) => addr == a
  }

  /** The `--ip` option as a filter: absent keeps every address. */
  function SubstringFilter(ip: Option<string>): (f: IpFilter)
    ensures forall addr :: Passes(f, addr) <==> ip.None? || Text.Contains(addr, ip.value)
  {
    if ip.None? then AnyIp else IpContains(ip.value)
  }

  /** What the generated files say about the resolved rows: each file is
      non-empty and passes the filter; its lines are the lines of the rows of
      its bucket, one per row, in query order (user id, then key id); every
      row that passes the filter has its line in its bucket's file; no two
      files share a server and user. */
  ghost predicate Produces(result: set<AuthRow>, f: IpFilter, entries: set<Entry>)
  {
    && (forall e :: e in entries ==>
          && |e.keys| > 0
          && Passes(f, e.serverip)
          && |e.keys| == |BucketRows(result, (e.serverip, e.user))|
          && (forall line :: line in e.keys ==>
                exists r :: r in result && KeyOf(r) == (e.serverip, e.user) && FormatLine(r) == line)
          && exists rs :: InBucketOrder(rs, result, (e.serverip, e.user)) && e.keys == Lines(rs))
    && (forall r :: r in result && Passes(f, r.ip) ==>
          exists e :: e in entries && e.serverip == r.ip && e.user == r.sshuser && FormatLine(r) in e.keys)
    && (forall e1, e2 :: e1 in entries && e2 in entries && e1.serverip == e2.serverip && e1.user == e2.user ==> e1 == e2)
  }

  /** `rs` lists the rows of bucket `k` once each, in query order. */
  ghost predicate InBucketOrder(rs: seq<AuthRow>, result: set<AuthRow>, k: BucketKey)
  {
    Distinct(rs) && Ordered(rs) && forall x :: x in rs <==> x in BucketRows(result, k)
  }

  /** The lines of a kept bucket are the lines of its rows, one per row. */
  lemma KeptEntry(rows: seq<AuthRow>, result: set<AuthRow>, hm: map<BucketKey, seq<string>>, k: BucketKey)
    requires QueryOrder(rows, result)
    requires k in hm && hm[k] == Lines(Select(rows, k))
    ensures |hm[k]| == |BucketRows(result, k)|
    ensures forall line :: line in hm[k] ==> exists r :: r in result && KeyOf(r) == k && FormatLine(r) == line
    ensures exists rs :: InBucketOrder(rs, result, k) && hm[k] == Lines(rs)
  {
    BucketSize(rows, result, k);
    var s := Select(rows, k);
    SelectKeeps(rows, k);
    assert InBucketOrder(s, result, k);
    forall line | line in hm[k]
      ensures exists r :: r in result && KeyOf(r) == k && FormatLine(r) == line
    {
      var i :| 0 <= i < |Lines(s)| && Lines(s)[i] == line;
      assert s[i] in s;
    }
  }

  /** A row that passes the filter has its line in its bucket's entry. */
  lemma RowListed(rows: seq<AuthRow>, hm: map<BucketKey, seq<string>>, ip: Option<string>, r: AuthRow)
    requires hm.Keys == RowKeys(rows)
    requires forall k :: k in hm ==> hm[k] == Lines(Select(rows, k))
    requires r in rows && Passes(SubstringFilter(ip), r.ip)
    ensures exists e :: e in Entries(RetainIp(hm, ip)) && e.serverip == r.ip && e.user == r.sshuser && FormatLine(r) in e.keys
  {
    var kept := RetainIp(hm, ip);
    var k := KeyOf(r);
    LineInBucket(rows, hm, r);
    assert k in kept && kept[k] == hm[k];
    var e := Entry(r.ip, r.sshuser, kept[k]);
    assert e in Entries(kept);
    assert FormatLine(r) in e.keys;
  }

  /** Every row's line is in the bucket of its key. */
  lemma LineInBucket(rows: seq<AuthRow>, hm: map<BucketKey, seq<string>>, r: AuthRow)
    requires hm.Keys == RowKeys(rows)
    requires forall k :: k in hm ==> hm[k] == Lines(Select(rows, k))
    requires r in rows
    ensures KeyOf(r) in hm && FormatLine(r) in hm[KeyOf(r)]
  {
    var s := Select(rows, KeyOf(r));
    var i :| 0 <= i < |rows| && rows[i] == r;
    assert r in s;
    var j :| 0 <= j < |s| && s[j] == r;
    assert Lines(s)[j] == FormatLine(r);
  }

  lemma GroupedProduces(rows: seq<AuthRow>, result: set<AuthRow>, hm: map<BucketKey, seq<string>>, ip: Option<string>)
    requires QueryOrder(rows, result)
    requires hm.Keys == RowKeys(rows)
    requires forall k :: k in hm ==> hm[k] == Lines(Select(rows, k))
    requires forall k :: k in hm ==> |hm[k]| > 0
    ensures Produces(result, SubstringFilter(ip), Entries(RetainIp(hm, ip)))
  {
    var kept := RetainIp(hm, ip);
    var entries := Entries(kept);
    forall e | e in entries
      ensures |e.keys| == |BucketRows(result, (e.serverip, e.user))|
      ensures forall line :: line in e.keys ==>
                exists r :: r in result && KeyOf(r) == (e.serverip, e.user) && FormatLine(r) == line
      ensures exists rs :: InBucketOrder(rs, result, (e.serverip, e.user)) && e.keys == Lines(rs)
    {
      KeptEntry(rows, result, hm, (e.serverip, e.user));
    }
    forall r | r in result && Passes(SubstringFilter(ip), r.ip)
      ensures exists e :: e in entries && e.serverip == r.ip && e.user == r.sshuser && FormatLine(r) in e.keys
    {
      RowListed(rows, hm, ip, r);
    }
  }

  /** `generate(pgclient, ip)`: the DNS refresh over the candidate rows in
      the order the database returned them, then resolution at `now`,
      grouping and filtering. A refresh that panics ends the run. */
  method Generate(db: Db, now: int, order: seq<Server>, lookup: string -> Option<seq<string>>, ip: Option<string>)
    returns (out: Result<set<Entry>, string>)
    requires forall s :: s in order <==> s in Dns.Candidates(db.servers)
    requires forall i, j :: 0 <= i < j < |order| ==> order[i] != order[j]
    ensures out.Err? <==> Dns.Refresh(db.servers, order, lookup).Err?
    ensures out.Ok? ==> (Dns.Refresh(db.servers, order, lookup).Ok? &&
      Produces(Resolve(db.(servers := Dns.Refresh(db.servers, order, lookup).value), now), SubstringFilter(ip), out.value))
  {
    var refreshed := Dns.Refresh(db.servers, order, lookup);
    if refreshed.Err? {
      return Err(refreshed.error);
    }
    var result := Resolve(db.(servers := refreshed.value), now);
    var rows := OrderRows(result);
    var hm := GroupLines(rows);
    GroupedProduces(rows, result, hm, ip);
    out := Ok(Entries(RetainIp(hm, ip)));
  }

  // ---------------------------------------------------------------------------
  // list serverauth
  // ---------------------------------------------------------------------------

  /** `SELECT ip FROM server WHERE name = $1`. */
  function IpOfName(servers: set<Server>, name: string): (r: Option<string>)
    requires ServerColumnsUnique(servers)
    ensures r.None? <==> forall s :: s in servers ==> s.name != name
    ensures r.Some? ==> exists s :: s in servers && s.name == name && s.ip == r.value
  {
    if exists s :: s in servers && s.name == name then
      var s :| s in servers && s.name == name;
      Some(s.ip)
    else None
  }

  /** `list(pgclient, ip, servername)`: a server name is turned into its
      stored IP, which then filters like `--ip`; an unknown name prints
      nothing and runs no refresh. `Ok(None)` is "nothing printed". */
  method ListServerAuth(db: Db, now: int, order: seq<Server>, lookup: string -> Option<seq<string>>,
                        ip: Option<string>, servername: Option<string>)
    returns (out: Result<Option<set<Entry>>, string>)
    requires ServerColumnsUnique(db.servers)
    requires forall s :: s in order <==> s in Dns.Candidates(db.servers)
    requires forall i, j :: 0 <= i < j < |order| ==> order[i] != order[j]
    ensures servername.Some? && IpOfName(db.servers, servername.value).None? ==> out == Ok(None)
    ensures out.Err? <==> (servername.None? || IpOfName(db.servers, servername.value).Some?)
                          && Dns.Refresh(db.servers, order, lookup).Err?
    ensures out.Ok? && out.value.Some? ==>
      var filter := if servername.Some? then IpOfName(db.servers, servername.value) else ip;
      Dns.Refresh(db.servers, order, lookup).Ok? &&
      Produces(Resolve(db.(servers := Dns.Refresh(db.servers, order, lookup).value), now), SubstringFilter(filter), out.value.value)
  {
    var filter := ip;
    if servername.Some? {
      var stored := IpOfName(db.servers, servername.value);
      if stored.None? {
        return Ok(None);
      }
      filter := stored;
    }
    var entries := Generate(db, now, order, lookup, filter);
    if entries.Err? {
      return Err(entries.error);
    }
    out := Ok(Some(entries.value));
  }

  /** The substring filter that the name lookup feeds lets a server whose IP
      extends the named server's IP through: listing the server at 10.0.0.1
      also lists the server at 10.0.0.12. */
  lemma NameFilterOverMatches()
    ensures var hm := map[("10.0.0.1", "root") := ["a"], ("10.0.0.12", "root") := ["b"]];
      RetainIp(hm, Some("10.0.0.1")) == hm
  {
    var hm := map[("10.0.0.1", "root") := ["a"], ("10.0.0.12", "root") := ["b"]];
    assert Text.OccursAt("10.0.0.12", "10.0.0.1", 0);
    Text.ContainsIff("10.0.0.12", "10.0.0.1");
    Text.ContainsSelf("10.0.0.1");
  }

  /** Keeps exactly the buckets of one server address. */
  function RetainServer(hm: map<BucketKey, seq<string>>, ip: string): (r: map<BucketKey, seq<string>>)
    ensures forall k :: k in r <==> k in hm && k.0 == ip
    ensures forall k :: k in r ==> r[k] == hm[k]
  {
    map k | k in hm && k.0 == ip :: hm[k]
  }

  /** What `list serverauth --servername` is meant to print: the files of
      the named server, at the address the refresh leaves it with, and no
      other server's. */
  method ListServerAuthByName(db: Db, now: int, order: seq<Server>, lookup: string -> Option<seq<string>>, name: string)
    returns (out: Result<Option<set<Entry>>, string>)
    requires ServerColumnsUnique(db.servers)
    requires forall s :: s in order <==> s in Dns.Candidates(db.servers)
    requires forall i, j :: 0 <= i < j < |order| ==> order[i] != order[j]
    ensures IpOfName(db.servers, name).None? ==> out == Ok(None)
    ensures out.Err? <==> IpOfName(db.servers, name).Some? && Dns.Refresh(db.servers, order, lookup).Err?
    ensures out.Ok? && out.value.Some? ==>
      && Dns.Refresh(db.servers, order, lookup).Ok?
      && var servers := Dns.Refresh(db.servers, order, lookup).value;
         forall e :: e in out.value.value ==>
           && |e.keys| > 0
           && (exists s :: s in servers && s.name == name && s.ip == e.serverip)
           && forall line :: line in e.keys ==>
                exists r :: r in Resolve(db.(servers := servers), now) && r.ip == e.serverip && r.sshuser == e.user && FormatLine(r) == line
    ensures out.Ok? && out.value.Some? ==>
      && Dns.Refresh(db.servers, order, lookup).Ok?
      && var servers := Dns.Refresh(db.servers, order, lookup).value;
         exists s :: s in servers && s.name == name && Produces(Resolve(db.(servers := servers), now), IpIs(s.ip), out.value.value)
  {
    if IpOfName(db.servers, name).None? {
      return Ok(None);
    }
    var refreshed := Dns.Refresh(db.servers, order, lookup);
    if refreshed.Err? {
      return Err(refreshed.error);
    }
    var servers := refreshed.value;
    Dns.RefreshKeepsUnique(db.servers, order, lookup);
    Dns.RefreshKeepsName(db.servers, order, lookup, name);
    var current := IpOfName(servers, name);
    var result := Resolve(db.(servers := servers), now);
    var rows := OrderRows(result);
    var hm := GroupLines(rows);
    GroupedProduces(rows, result, hm, None);
    var entries := Entries(RetainServer(hm, current.value));
    ServerEntries(result, hm, current.value);
    var s :| s in servers && s.name == name && s.ip == current.value;
    assert Produces(result, IpIs(s.ip), entries);
    out := Ok(Some(entries));
  }

  /** Narrowing the unfiltered buckets to one address keeps only that
      address's entries, each still made of the lines of its rows, and
      every row at that address still has its line listed. */
  lemma ServerEntries(result: set<AuthRow>, hm: map<BucketKey, seq<string>>, ip: string)
    requires Produces(result, AnyIp, Entries(RetainIp(hm, None)))
    ensures forall e :: e in Entries(RetainServer(hm, ip)) ==>
      && |e.keys| > 0 && e.serverip == ip
      && forall line :: line in e.keys ==>
           exists r :: r in result && r.ip == e.serverip && r.sshuser == e.user && FormatLine(r) == line
    ensures Produces(result, IpIs(ip), Entries(RetainServer(hm, ip)))
  {
    var all := Entries(RetainIp(hm, None));
    var mine := Entries(RetainServer(hm, ip));
    forall e | e in mine
      ensures e in all
    {
    }
    forall r | r in result && Passes(IpIs(ip), r.ip)
      ensures exists e :: e in mine && e.serverip == r.ip && e.user == r.sshuser && FormatLine(r) in e.keys
    {
      var e :| e in all && e.serverip == r.ip && e.user == r.sshuser && FormatLine(r) in e.keys;
      var k := (e.serverip, e.user);
      assert k in RetainServer(hm, ip);
      assert Entry(k.0, k.1, RetainServer(hm, ip)[k]) == e;
    }
  }
}
