/** The DNS refresh that `generate` runs before resolving grants
    (src/serverauth.rs, src/generate.rs): every enabled server with
    `use_dns` has its name resolved; the stored IP is kept when it is among
    the resolved addresses and otherwise replaced by the first of them.
    Name resolution is an input (`None` for a failed lookup). The update is
    `UPDATE server SET ip = $1 WHERE name = $2`; it fails, without stopping
    the run, when another server already holds the new IP (the IP column is
    unique). */
module Dns {
  import opened Wrappers
  import opened Schema

  /** What happens to one server. `Abort` is the out-of-bounds panic of
      `iplist[0]` when a lookup succeeds with no address at all. */
  datatype Decision = Skip | Keep | Replace(ip: string) | Abort

  function Decide(stored: string, resolved: Option<seq<string>>): (d: Decision)
    ensures d == Skip <==> resolved.None?
    ensures d == Keep <==> resolved.Some? && stored in resolved.value
    ensures d == Abort <==> resolved.Some? && |resolved.value| == 0
    ensures d.Replace? <==> resolved.Some? && |resolved.value| > 0 && stored !in resolved.value
    ensures d.Replace? ==> d.ip == resolved.value[0] && d.ip != stored
  {
    match resolved
    case None => Skip
    case Some(list) =>
      if stored in list then Keep
      else if |list| == 0 then Abort
      else Replace(list[0])
  }

  /** `SELECT ip, name FROM server WHERE use_dns AND NOT disabled`. */
  function Candidates(servers: set<Server>): set<Server>
  {
    set s | s in servers && s.useDns && !s.disabled
  }

  /** Another server already holds `ip`, so the update violates uniqueness. */
  predicate IpTaken(servers: set<Server>, name: string, ip: string)
  {
    exists t :: t in servers && t.ip == ip && t.name != name
  }

  function SetIp(servers: set<Server>, name: string, ip: string): set<Server>
  {
    set s | s in servers :: if s.name == name then s.(ip := ip) else s
  }

  /** The `UPDATE`, which leaves the table unchanged when it fails. */
  function Update(servers: set<Server>, name: string, ip: string): (r: set<Server>)
    ensures IpTaken(servers, name, ip) ==> r == servers
  {
    if IpTaken(servers, name, ip) then servers else SetIp(servers, name, ip)
  }

  /** Processes the candidate rows in the order the query returned them. */
  function Refresh(servers: set<Server>, order: seq<Server>, lookup: string -> Option<seq<string>>): Result<set<Server>, string>
    decreases |order|
  {
    if |order| == 0 then Ok(servers)
    else
      var c := order[0];
      match Decide(c.ip, lookup(c.name))
      case Abort => Err("index out of bounds")
      case Replace(ip) => Refresh(Update(servers, c.name, ip), order[1..], lookup)
      case _ => Refresh(servers, order[1..], lookup)
  }

  /** The columns other than `ip`. */
  function WithoutIp(servers: set<Server>): set<Server>
  {
    set s | s in servers :: s.(ip := "")
  }

  lemma UpdateKeepsOtherColumns(servers: set<Server>, name: string, ip: string)
    ensures WithoutIp(Update(servers, name, ip)) == WithoutIp(servers)
  {
    if !IpTaken(servers, name, ip) {
      var r := SetIp(servers, name, ip);
      forall x | x in WithoutIp(r) ensures x in WithoutIp(servers) {
        var s' :| s' in r && x == s'.(ip := "");
        var s :| s in servers && s' == (if s.name == name then s.(ip := ip) else s);
        assert x == s.(ip := "");
      }
      forall x | x in WithoutIp(servers) ensures x in WithoutIp(r) {
        var s :| s in servers && x == s.(ip := "");
        var s' := if s.name == name then s.(ip := ip) else s;
        assert s' in r;
        assert x == s'.(ip := "");
      }
    }
  }

  /** The refresh changes IP addresses and nothing else. */
  lemma {:induction false} RefreshKeepsOtherColumns(servers: set<Server>, order: seq<Server>, lookup: string -> Option<seq<string>>)
    requires Refresh(servers, order, lookup).Ok?
    ensures WithoutIp(Refresh(servers, order, lookup).value) == WithoutIp(servers)
    decreases |order|
  {
    if |order| > 0 {
      var c := order[0];
      match Decide(c.ip, lookup(c.name))
      case Replace(ip) =>
        UpdateKeepsOtherColumns(servers, c.name, ip);
        RefreshKeepsOtherColumns(Update(servers, c.name, ip), order[1..], lookup);
      case Abort =>
      case Skip | Keep =>
        RefreshKeepsOtherColumns(servers, order[1..], lookup);
    }
  }

  /** A server that exists before the refresh still exists after it. */
  lemma RefreshKeepsName(servers: set<Server>, order: seq<Server>, lookup: string -> Option<seq<string>>, name: string)
    requires Refresh(servers, order, lookup).Ok?
    requires exists s :: s in servers && s.name == name
    ensures exists s :: s in Refresh(servers, order, lookup).value && s.name == name
  {
    var s :| s in servers && s.name == name;
    RefreshKeepsOtherColumns(servers, order, lookup);
    assert s.(ip := "") in WithoutIp(Refresh(servers, order, lookup).value);
  }

  lemma UpdateKeepsUnique(servers: set<Server>, name: string, ip: string)
    requires ServerColumnsUnique(servers)
    ensures ServerColumnsUnique(Update(servers, name, ip))
  {
    if !IpTaken(servers, name, ip) {
      var r := SetIp(servers, name, ip);
      forall s', t' | s' in r && t' in r && s' != t'
        ensures s'.id != t'.id && s'.name != t'.name && s'.ip != t'.ip
      {
        var s :| s in servers && s' == (if s.name == name then s.(ip := ip) else s);
        var t :| t in servers && t' == (if t.name == name then t.(ip := ip) else t);
        assert s != t;
      }
    }
  }

  /** Because a clashing update fails, the refresh keeps ids, names and
      IPs unique. */
  lemma {:induction false} RefreshKeepsUnique(servers: set<Server>, order: seq<Server>, lookup: string -> Option<seq<string>>)
    requires ServerColumnsUnique(servers)
    requires Refresh(servers, order, lookup).Ok?
    ensures ServerColumnsUnique(Refresh(servers, order, lookup).value)
    decreases |order|
  {
    if |order| > 0 {
      var c := order[0];
      match Decide(c.ip, lookup(c.name))
      case Replace(ip) =>
        UpdateKeepsUnique(servers, c.name, ip);
        RefreshKeepsUnique(Update(servers, c.name, ip), order[1..], lookup);
      case Abort =>
      case Skip | Keep =>
        RefreshKeepsUnique(servers, order[1..], lookup);
    }
  }

  /** The refresh aborts exactly when some processed name resolves to no
      address at all, before any later row is looked at. */
  lemma {:induction false} RefreshAbortsIff(servers: set<Server>, order: seq<Server>, lookup: string -> Option<seq<string>>)
    ensures Refresh(servers, order, lookup).Err? <==>
      exists i :: 0 <= i < |order| && lookup(order[i].name) == Some([])
    decreases |order|
  {
    if |order| > 0 {
      var c := order[0];
      match Decide(c.ip, lookup(c.name))
      case Replace(ip) =>
        RefreshAbortsIff(Update(servers, c.name, ip), order[1..], lookup);
        RestShift(order, lookup);
      case Abort =>
        assert lookup(order[0].name) == Some([]);
      case _ =>
        RefreshAbortsIff(servers, order[1..], lookup);
        RestShift(order, lookup);
    }
  }

  lemma RestShift(order: seq<Server>, lookup: string -> Option<seq<string>>)
    requires |order| > 0 && lookup(order[0].name) != Some([])
    ensures (exists i :: 0 <= i < |order| && lookup(order[i].name) == Some([])) <==>
            (exists i :: 0 <= i < |order[1..]| && lookup(order[1..][i].name) == Some([]))
  {
    if exists i :: 0 <= i < |order| && lookup(order[i].name) == Some([]) {
      var i :| 0 <= i < |order| && lookup(order[i].name) == Some([]);
      assert order[1..][i - 1] == order[i];
    }
  }

  /** A server whose name now resolves elsewhere gets the new address. */
  lemma Scenario()
    ensures var web2 := Server(2, "web2", "10.0.0.9", false, true, None);
      var lookup := (n: string) => if n == "web2" then Some(["10.0.0.99"]) else None;
      Refresh({web2}, [web2], lookup) == Ok({web2.(ip := "10.0.0.99")})
  {
    var web2 := Server(2, "web2", "10.0.0.9", false, true, None);
    var lookup := (n: string) => if n == "web2" then Some(["10.0.0.99"]) else None;
    assert Decide(web2.ip, lookup(web2.name)) == Replace("10.0.0.99");
    assert !IpTaken({web2}, "web2", "10.0.0.99");
    assert SetIp({web2}, "web2", "10.0.0.99") == {web2.(ip := "10.0.0.99")};
  }
}
