/** The identity written to the audit log for every change (src/logging.rs):
    the client address of the SSH session taken from `SSH_CONNECTION`,
    whose value is "client-ip client-port server-ip server-port". Reading the
    environment is left to the caller, which passes the variable's value or
    `None` when it is unset; `isIpv6` stands for `str::parse::<Ipv6Addr>`
    succeeding. */
module Audit {
  import opened Wrappers
  import Text

  /** What the log records when `SSH_CONNECTION` is unset. */
  const LocalUser: string := "local user"

  /** The client address as the log shows it: an IPv6 address in brackets so
      that the port separator stays readable. */
  function ClientHost(ip: string, isIpv6: string -> bool): (r: string)
    ensures isIpv6(ip) ==> |r| == |ip| + 2 && r[0] == '[' && r[|r| - 1] == ']' && r[1..|r| - 1] == ip
    ensures !isIpv6(ip) ==> r == ip
  {
    if isIpv6(ip) then "[" + ip + "]" else ip
  }

  /** `get_ssh_client`: "local user" without a session, the value itself
      unless it has exactly four space-separated fields, and otherwise the
      client host and port joined by `:`. */
  function SshClient(env: Option<string>, isIpv6: string -> bool): (r: string)
    ensures env.None? ==> r == LocalUser
    ensures env.Some? && |Text.Split(env.value, ' ')| != 4 ==> r == env.value
  {
    match env
    case None => LocalUser
    case Some(con) =>
      var fields := Text.Split(con, ' ');
      if |fields| != 4 then con
      else ClientHost(fields[0], isIpv6) + ":" + fields[1]
  }

  /** The four fields joined by single spaces, as sshd writes them. */
  function Connection(clientIp: string, clientPort: string, serverIp: string, serverPort: string): string
  {
    clientIp + " " + clientPort + " " + serverIp + " " + serverPort
  }

  lemma ConnectionSplits(a: string, b: string, c: string, d: string)
    requires ' ' !in a && ' ' !in b && ' ' !in c && ' ' !in d
    ensures Text.Split(Connection(a, b, c, d), ' ') == [a, b, c, d]
  {
    var parts := [a, b, c, d];
    assert Text.Join(parts[3..], ' ') == d;
    assert Text.Join(parts[2..], ' ') == c + " " + d by {
      assert parts[2..][1..] == parts[3..];
    }
    assert Text.Join(parts[1..], ' ') == b + " " + c + " " + d by {
      assert parts[1..][1..] == parts[2..];
    }
    assert Text.Join(parts, ' ') == Connection(a, b, c, d);
    Text.SplitJoin(parts, ' ');
  }

  /** A well-formed session value logs as the client address and port; the
      server's address and port never appear. */
  lemma WellFormedSession(a: string, b: string, c: string, d: string, isIpv6: string -> bool)
    requires ' ' !in a && ' ' !in b && ' ' !in c && ' ' !in d
    ensures isIpv6(a) ==> SshClient(Some(Connection(a, b, c, d)), isIpv6) == "[" + a + "]:" + b
    ensures !isIpv6(a) ==> SshClient(Some(Connection(a, b, c, d)), isIpv6) == a + ":" + b
  {
    ConnectionSplits(a, b, c, d);
    if isIpv6(a) {
      assert "[" + a + "]" + ":" + b == "[" + a + "]:" + b;
    }
  }

  /** Two sessions from the same client address and port log the same
      identity whatever server address and port they reached. */
  lemma ServerFieldsIgnored(a: string, b: string, c: string, d: string, c': string, d': string, isIpv6: string -> bool)
    requires ' ' !in a && ' ' !in b && ' ' !in c && ' ' !in d && ' ' !in c' && ' ' !in d'
    ensures SshClient(Some(Connection(a, b, c, d)), isIpv6) == SshClient(Some(Connection(a, b, c', d')), isIpv6)
  {
    ConnectionSplits(a, b, c, d);
    ConnectionSplits(a, b, c', d');
  }

  /** A value without any space is not a four-field session and is logged
      as it is. */
  lemma NoSpaceVerbatim(con: string, isIpv6: string -> bool)
    requires ' ' !in con
    ensures SshClient(Some(con), isIpv6) == con
  {
    Text.SplitHasTwoIff(con, ' ');
  }

  /** A value with a fifth field is logged whole, server part included. */
  lemma FiveFieldsVerbatim(a: string, b: string, c: string, d: string, e: string, isIpv6: string -> bool)
    requires ' ' !in a && ' ' !in b && ' ' !in c && ' ' !in d && ' ' !in e
    ensures SshClient(Some(Connection(a, b, c, d) + " " + e), isIpv6) == Connection(a, b, c, d) + " " + e
  {
    var parts := [a, b, c, d, e];
    assert Text.Join(parts[4..], ' ') == e;
    assert Text.Join(parts[3..], ' ') == d + " " + e by {
      assert parts[3..][1..] == parts[4..];
    }
    assert Text.Join(parts[2..], ' ') == c + " " + d + " " + e by {
      assert parts[2..][1..] == parts[3..];
    }
    assert Text.Join(parts[1..], ' ') == b + " " + c + " " + d + " " + e by {
      assert parts[1..][1..] == parts[2..];
    }
    assert Text.Join(parts, ' ') == Connection(a, b, c, d) + " " + e;
    Text.SplitJoin(parts, ' ');
  }
}
