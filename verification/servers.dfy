/** `server add`, `server update` and `server list` (src/server.rs). An IP
    address is held as its canonical text; `parseIp` stands for
    `str::parse::<IpAddr>` followed by `to_string`, and gives `None` for text
    that is not an address. */
module Servers {
  import opened Wrappers
  import Text
  import Prompt
  import opened Schema
  import Listing
  import IntParse

  predicate NameTaken(servers: set<Server>, name: string)
  {
    exists s :: s in servers && s.name == name
  }

  predicate IpTaken(servers: set<Server>, ip: string)
  {
    exists s :: s in servers && s.ip == ip
  }

  /** The id of the server called `name`, as `SELECT id FROM server WHERE
      name = $1` finds it. */
  function IdByName(servers: set<Server>, name: string): (r: Option<int>)
    requires ServerColumnsUnique(servers)
    ensures r.Some? <==> NameTaken(servers, name)
    ensures r.Some? ==> forall s :: s in servers && s.name == name ==> s.id == r.value
  {
    if NameTaken(servers, name) then
      var s :| s in servers && s.name == name;
      Some(s.id)
    else None
  }

  /** `server add`: the checks in the order the command makes them, then the
      new row with the flags as given and the comment absent when blank or
      `null`. */
  function AddServer(servers: set<Server>, newId: int, name: string, ipAnswer: string, parseIp: string -> Option<string>,
                     disabled: bool, useDns: bool, comment: string): (r: Result<set<Server>, string>)
    requires forall s :: s in servers ==> s.id != newId
    ensures r.Ok? <==> name != "" && !NameTaken(servers, name) && parseIp(ipAnswer).Some?
                       && !IpTaken(servers, parseIp(ipAnswer).value)
    ensures name == "" ==> r == Err("Server name cannot be empty.")
    ensures name != "" && NameTaken(servers, name) ==> r == Err("Name already in use.")
    ensures name != "" && !NameTaken(servers, name) && parseIp(ipAnswer).None? ==> r == Err("This is not a valid IP address'")
    ensures r.Ok? ==> r.value - servers == {Server(newId, name, parseIp(ipAnswer).value, disabled, useDns, Prompt.BlankOrNull(comment))}
    ensures r.Ok? ==> servers <= r.value
    ensures r.Ok? && ServerColumnsUnique(servers) ==> ServerColumnsUnique(r.value)
  {
    if name == "" then Err("Server name cannot be empty.")
    else if NameTaken(servers, name) then Err("Name already in use.")
    else match parseIp(ipAnswer)
      case None => Err("This is not a valid IP address'")
      case Some(ip) =>
        if IpTaken(servers, ip) then Err("IP already in use.")
        else
          var s := Server(newId, name, ip, disabled, useDns, Prompt.BlankOrNull(comment));
          InsertServer(servers, s);
          Ok(servers + {s})
  }

  /** A server with a fresh id, name and address is the one row added and
      keeps the unique columns unique. */
  lemma InsertServer(servers: set<Server>, s: Server)
    requires forall t :: t in servers ==> t.id != s.id
    requires !NameTaken(servers, s.name) && !IpTaken(servers, s.ip)
    ensures (servers + {s}) - servers == {s}
    ensures ServerColumnsUnique(servers) ==> ServerColumnsUnique(servers + {s})
  {
    assert s !in servers;
  }

  /** Another server than `id` already has `name`. */
  predicate NameTakenByOther(servers: set<Server>, name: string, id: int)
  {
    exists s :: s in servers && s.name == name && s.id != id
  }

  predicate IpTakenByOther(servers: set<Server>, ip: string, id: int)
  {
    exists s :: s in servers && s.ip == ip && s.id != id
  }

  /** The IP answer of `update`: exactly empty keeps the stored address,
      anything else must parse. */
  function UpdateIp(answer: string, stored: string, parseIp: string -> Option<string>): (r: Result<string, string>)
    ensures answer == "" ==> r == Ok(stored)
    ensures answer != "" ==> (r.Ok? <==> parseIp(answer).Some?)
    ensures answer != "" && r.Ok? ==> r.value == parseIp(answer).value
    ensures r.Err? ==> r.error == "Not a valid IP address."
  {
    if answer == "" then Ok(stored)
    else match parseIp(answer)
      case Some(ip) => Ok(ip)
      case None => Err("Not a valid IP address.")
  }

  /** The row as `server update` rewrites it, or the command's error. The
      name check is skipped for a kept name; the IP check is always made. */
  function UpdatedServer(servers: set<Server>, prev: Server, newName: string, ipAnswer: string,
                         parseIp: string -> Option<string>, comment: string): (r: Result<Server, string>)
    ensures r.Ok? <==> (newName == "" || !NameTakenByOther(servers, newName, prev.id))
                       && UpdateIp(ipAnswer, prev.ip, parseIp).Ok?
                       && !IpTakenByOther(servers, UpdateIp(ipAnswer, prev.ip, parseIp).value, prev.id)
    ensures r.Ok? ==> r.value == prev.(name := Prompt.KeepIfEmpty(newName, prev.name),
                                       ip := UpdateIp(ipAnswer, prev.ip, parseIp).value,
                                       comment := Prompt.TriState(comment, prev.comment))
    ensures newName != "" && NameTakenByOther(servers, newName, prev.id) ==> r == Err("Server name already in use.")
  {
    if newName != "" && NameTakenByOther(servers, newName, prev.id) then Err("Server name already in use.")
    else match UpdateIp(ipAnswer, prev.ip, parseIp)
      case Err(e) => Err(e)
      case Ok(ip) =>
        if IpTakenByOther(servers, ip, prev.id) then Err("IP already in use.")
        else Ok(prev.(name := Prompt.KeepIfEmpty(newName, prev.name), ip := ip, comment := Prompt.TriState(comment, prev.comment)))
  }

  /** `server update`: find the server by name, then rewrite its row. */
  function UpdateServer(servers: set<Server>, oldName: string, newName: string, ipAnswer: string,
                        parseIp: string -> Option<string>, comment: string): (r: Result<set<Server>, string>)
    requires ServerColumnsUnique(servers)
    ensures oldName == "" ==> r == Err("Server name cannot be empty.")
    ensures oldName != "" && !NameTaken(servers, oldName) ==> r == Err("Server not found.")
    ensures r.Ok? <==> oldName != "" && exists prev :: (
      && prev in servers && prev.name == oldName
      && UpdatedServer(servers, prev, newName, ipAnswer, parseIp, comment).Ok?)
    ensures r.Ok? ==> exists prev :: (
      && prev in servers && prev.name == oldName
      && var s := UpdatedServer(servers, prev, newName, ipAnswer, parseIp, comment);
         s.Ok? && r.value == servers - {prev} + {s.value})
  {
    if oldName == "" then Err("Server name cannot be empty.")
    else if !NameTaken(servers, oldName) then Err("Server not found.")
    else
      var prev :| prev in servers && prev.name == oldName;
      assert forall p :: p in servers && p.name == oldName ==> p == prev;
      match UpdatedServer(servers, prev, newName, ipAnswer, parseIp, comment)
      case Err(e) => Err(e)
      case Ok(s) => Ok(servers - {prev} + {s})
  }

  /** Rewriting one row with its id kept and a name and address no other
      row holds keeps the columns unique, the row count and every other row. */
  lemma ReplaceServer(servers: set<Server>, prev: Server, s: Server)
    requires ServerColumnsUnique(servers) && prev in servers && s.id == prev.id
    requires !NameTakenByOther(servers, s.name, prev.id) && !IpTakenByOther(servers, s.ip, prev.id)
    ensures ServerColumnsUnique(servers - {prev} + {s})
    ensures |servers - {prev} + {s}| == |servers|
    ensures forall t :: t in servers && t != prev ==> t in servers - {prev} + {s}
  {
    var rest := servers - {prev};
    assert forall t :: t in rest ==> t.id != prev.id;
    assert |rest + {s}| == |rest| + 1;
  }

  /** A successful `server update` keeps names, addresses and ids unique,
      keeps the row count, and leaves every other server's row alone. */
  lemma UpdatedServers(servers: set<Server>, oldName: string, newName: string, ipAnswer: string,
                       parseIp: string -> Option<string>, comment: string)
    requires ServerColumnsUnique(servers)
    requires UpdateServer(servers, oldName, newName, ipAnswer, parseIp, comment).Ok?
    ensures var after := UpdateServer(servers, oldName, newName, ipAnswer, parseIp, comment).value;
      && ServerColumnsUnique(after) && |after| == |servers|
      && forall t :: t in servers && t.name != oldName ==> t in after
  {
    var after := UpdateServer(servers, oldName, newName, ipAnswer, parseIp, comment).value;
    var prev :| prev in servers && prev.name == oldName
      && var s := UpdatedServer(servers, prev, newName, ipAnswer, parseIp, comment); s.Ok? && after == servers - {prev} + {s.value};
    var s := UpdatedServer(servers, prev, newName, ipAnswer, parseIp, comment).value;
    if newName == "" {
      assert s.name == prev.name;
    }
    ReplaceServer(servers, prev, s);
  }

  /** Answering every question of `server update` with <Enter> leaves the
      table as it was. */
  lemma UpdateBlankKeeps(servers: set<Server>, name: string, parseIp: string -> Option<string>)
    requires ServerColumnsUnique(servers) && name != "" && NameTaken(servers, name)
    ensures UpdateServer(servers, name, "", "", parseIp, "") == Ok(servers)
  {
    var prev :| prev in servers && prev.name == name;
    assert forall p :: p in servers && p.name == name ==> p == prev;
    assert !IpTakenByOther(servers, prev.ip, prev.id);
    assert UpdatedServer(servers, prev, "", "", parseIp, "") == Ok(prev);
    assert servers - {prev} + {prev} == servers;
  }

  /** A server added by `server add` holds its name and address afterwards. */
  lemma AddThenTaken(servers: set<Server>, newId: int, name: string, ipAnswer: string, parseIp: string -> Option<string>,
                     disabled: bool, useDns: bool, comment: string)
    requires forall s :: s in servers ==> s.id != newId
    requires AddServer(servers, newId, name, ipAnswer, parseIp, disabled, useDns, comment).Ok?
    ensures var after := AddServer(servers, newId, name, ipAnswer, parseIp, disabled, useDns, comment).value;
      NameTaken(after, name) && IpTaken(after, parseIp(ipAnswer).value) && |after| == |servers| + 1
  {
    var after := AddServer(servers, newId, name, ipAnswer, parseIp, disabled, useDns, comment).value;
    var s := Server(newId, name, parseIp(ipAnswer).value, disabled, useDns, Prompt.BlankOrNull(comment));
    assert s in after - servers;
    assert after == servers + {s};
  }

  /** `server list`: name, then IP, then id filters over the rows in id
      order. */
  function ListServers(rows: seq<Server>, name: Option<string>, ip: Option<string>, id: Option<string>, exact: bool)
    : (r: Result<seq<Server>, string>)
    ensures r.Err? <==> id.Some? && IntParse.ParseI64(id.value).None?
    ensures r.Err? ==> r.error == "Wrong ID format."
    ensures r.Ok? ==> Listing.IsSubseq(r.value, rows)
    ensures r.Ok? ==> forall s :: s in r.value <==>
      && s in rows
      && (name.None? || Listing.Matches(exact, s.name, name.value))
      && (ip.None? || Listing.MatchesCase(exact, s.ip, ip.value))
      && (id.None? || IntParse.ParseI64(id.value) == Some(s.id))
  {
    var byName := Listing.FilterText(rows, name, exact, (s: Server) => s.name);
    var byIp := Listing.FilterWith(byName, ip, (s: Server, f: string) => Listing.MatchesCase(exact, s.ip, f));
    Listing.IsSubseqTrans(byIp, byName, rows);
    match Listing.FilterId(byIp, id, (s: Server) => s.id)
    case Err(e) => Err(e)
    case Ok(byId) =>
      Listing.IsSubseqTrans(byId, byIp, rows);
      Ok(byId)
  }

  /** Unlike the name filter, the inexact IP filter does not fold case: an
      IPv6 address written in capitals is not found. */
  lemma IpFilterKeepsCase()
    ensures !Listing.MatchesCase(false, "fe80::1", "FE80")
    ensures Listing.Matches(false, "web", "WEB")
  {
    if Text.Contains("fe80::1", "FE80") {
      Text.ContainsFirstChar("fe80::1", "FE80");
      assert false;
    }
    assert Text.Lower("web") == "web";
    assert Text.Lower("WEB") == "web";
    Text.ContainsSelf("web");
  }
}
