# oerec in Dafny

oerec is a command-line tool that keeps the SSH access grants of an
organisation in PostgreSQL and writes one `authorized_keys` file per server
and remote account. This project models the rules beneath its commands and
proves what they guarantee:

- **Grant resolution** (`Resolution`, `Closure`): which
  (user, key, server, rule) tuples the resolution query of `generate` yields.
  A grant to a user group reaches the members of every group nested under
  it. A rule for a server group reaches the servers of every group nested
  under it. The recursive supergroup closure is computed by a worklist that
  stops on cycles. Disabled users, disabled servers and expired grants drop
  out.
- **authorized_keys generation** (`Format`, `Buckets`, `AuthorizedKeys`,
  `Dns`):
  - the OpenSSH line for one tuple (the AUTHORIZED_KEYS FILE FORMAT section
    of sshd(8));
  - grouping into (server IP, remote user) buckets;
  - the substring IP filter;
  - the DNS refresh of server addresses that runs first;
  - the server-name lookup of `list serverauth`.
- **Key fingerprints** (`Fingerprint`, `Base64`): key normalisation to two
  tokens, the algorithm whitelist, and the `SHA256:` fingerprint. The
  padded-and-trimmed older variant agrees with the unpadded newer one.
- **Input rules of the add and update commands** (`Prompt`, `Keys`, `Users`,
  `Servers`, `Groups`, `ServerAccessRules`, `Grants`):
  - the answers of `set_or_ask_for` and `ask_for`;
  - the blank-or-`null` rule;
  - the keep/clear/replace rule for optional fields;
  - user types;
  - the `administrator` default for the remote account;
  - exactly one target for a rule and exactly one principal for a grant;
  - the `--until` expiry parser.
- **Listings** (`Listing`, `GroupList`, `ServerAccessRules`, `GrantList`):
  - order-preserving client-side filters;
  - the hidden `all` group;
  - the `--empty`, `--expired` and `--disabled` toggles.
- **Audit identity** (`Audit`) and **configuration defaults** (`Config`).

Tables are finite sets of records (`Schema.Db`). `NOW()` is an integer
parameter. Interactive answers are inputs. `exit_with_message` is an `Err`
outcome. Code the model cannot see is passed in as a function parameter:
SHA-256, base64 decoding, the IP, date and time parsers, name resolution and
the environment variable read. The older command layout (src/add.rs,
src/update.rs, src/list.rs, src/generate.rs) repeats the rules of the newer
one. The table below cites both layouts where they coincide, and names the
differences.

Behaviours of the source that the model keeps as they are written:

- The options of an `authorized_keys` line are joined by commas with no
  space between them, and one space separates the last option from the key
  (src/serverauth.rs:174-202, and the same in src/generate.rs:173-201).
  This is the options syntax of sshd(8) (`Format.FormatLineIsOptionsField`).
- `SELECT DISTINCT` ranges over the whole projected tuple, including the
  rule's `from`, `command` and option columns (src/serverauth.rs:103-112).
  Two rules that differ only in those columns therefore give two lines in
  the same file.
- Generation keeps a grant while `best_before > NOW()`. The access listing
  shows it while `best_before >= NOW()`. A grant that expires exactly now is
  listed as current but is no longer written (`GrantList.ExpiryBoundary`).
- The older summary listing of grants does not hide disabled users
  (`GrantList.OldSummaryShowsDisabledUsers`).
- `serveraccess update` does not check whether the new rule name is free.
  The database's unique constraint refuses a clash, modelled as the error
  `DuplicateName`.

## Model

| member | source | states |
|---|---|---|
| Prompt.SetOrAskFor | src/main.rs:97-111 | a supplied value comes back verbatim; a typed line comes back trimmed: the slice of the line between a whitespace prefix and a whitespace suffix, with no whitespace at either end, and empty exactly when the line is all whitespace |
| Prompt.AnswerIndex | src/main.rs:183-190 | the loop of `ask_for` stops at the first typed line that is not a list request (or past the last line), and every line before it was one |
| Prompt.AskFor | src/main.rs:183-190 | `ask_for` never returns an answer whose trimmed form ends in `?`; a supplied value is returned as it is unless it is such a request, in which case the loop never ends (no result); without one, the answer is the first typed line that is not a request |
| Prompt.LoopExit | src/main.rs:183-190 | where the reading stops, the trimmed line read there is not a list request and is the answer the loop returns |
| Prompt.BlankOrNull | src/key.rs:65-69 | the add rule for optional text: absent exactly when the answer is all whitespace or trims and lowercases to `null`; otherwise the untrimmed answer is stored |
| Prompt.TriState | src/key.rs:316-322 | the update rule for optional text: exactly `""` keeps the stored value, an answer that trims and lowercases to `null` clears it, any other answer, whitespace included, replaces it verbatim; the older copy at src/update.rs:117-123 behaves the same |
| Prompt.KeepIfEmpty | src/user.rs:608-609 | the update rule for required text: `""` keeps the stored value, any other answer replaces it |
| Prompt.TriStateVersusBlankOrNull | src/key.rs:316-322 | the add and update rules for comments agree on every non-empty answer except an all-whitespace one, which add drops and update stores |
| Prompt.TypedTriState | src/main.rs:97-111 | an interactively typed answer is trimmed first, so it never reaches the whitespace-only case of the update rule |
| Config.ConnectionOf | src/main.rs:257-271 | each connection setting is the file's value or its default (user `oerec`, socket path `/var/run/postgres`, host `localhost`, database `oere`); a password is set only when the file gives one |
| Config.LogFile | src/main.rs:279-286 | the log file is the one the `[logging]` table names, and `/var/log/oerec.log` when the table or its `file` key is missing |
| Config.MinimalUsesDefaults | src/main.rs:257-287 | a file that sets nothing connects with all the defaults and logs to `/var/log/oerec.log` |
| Config.GivenValuesWin | src/main.rs:257-287 | every value given in the file wins over its default, and the connection settings do not depend on the logging table |
| Audit.ClientHost | src/logging.rs:37-48 | an IPv6 client address is put in brackets, any other one is kept as it is |
| Audit.SshClient | src/logging.rs:28-52 | `get_ssh_client`: `local user` when `SSH_CONNECTION` is unset, the value verbatim unless it has exactly four space-separated fields |
| Audit.ConnectionSplits | src/logging.rs:31-35 | four space-free fields joined by single spaces split back into those four fields |
| Audit.WellFormedSession | src/logging.rs:37-48 | a four-field value logs as `[client]:port` for an IPv6 client and `client:port` otherwise |
| Audit.ServerFieldsIgnored | src/logging.rs:37-48 | the server address and port never change the logged identity |
| Audit.NoSpaceVerbatim | src/logging.rs:31-35 | a value without a space is logged verbatim |
| Audit.FiveFieldsVerbatim | src/logging.rs:31-35 | a value with a fifth field is logged verbatim, server part included |
| Fingerprint.Fingerprint | src/key.rs:230-250 | `generate_fingerprint`: succeeds exactly for a key with two tokens, a whitelisted type and a decodable blob; the result starts with `SHA256:`, contains no `=`, and its remainder decodes to the SHA-256 digest of the blob; otherwise the command's error |
| Fingerprint.LegacyFingerprint | src/main.rs:193-213 | `gen_ssh_fingerprint`: accepts and rejects exactly the same keys as the newer function |
| Fingerprint.FingerprintVariantsAgree | src/main.rs:203-208 | the padded encoding with trailing `=` trimmed equals the unpadded encoding used in src/key.rs:240-245, so both fingerprint functions agree on every key |
| Fingerprint.NormalizeKey | src/key.rs:58-62 | the stored key is the first two `' '`-separated tokens joined by one space: its token list is exactly the first two tokens of the answer; the older copy at src/add.rs:199-204 behaves the same |
| Fingerprint.NormalizeIdempotent | src/key.rs:58-62 | a normalised key has two tokens and normalising it again changes nothing |
| Fingerprint.FingerprintOfNormalized | src/key.rs:62-63 | the fingerprint reads only the first two tokens, so normalising a key does not change its fingerprint |
| Fingerprint.DoubleSpaceKey | src/key.rs:58-62 | two spaces after the key type make the second token empty: the stored key is `ssh-rsa ` and its blob is empty |
| Keys.CheckKey | src/key.rs:58-63 | a key answer with fewer than two tokens is `Invalid key format.`, one with a bad type or blob is `Wrong SSH key format.`; otherwise the normalised key and its fingerprint |
| Keys.AddKey | src/key.rs:22-80 | `key add`: the empty-email, unknown-user and empty-key errors in that order; on success exactly one new row, with the normalised key, its fingerprint and the add comment rule, and stored keys stay normalised and fingerprinted |
| Keys.NewKey | src/key.rs:292-294 | an empty key answer reuses the stored key |
| Keys.RewriteKey | src/key.rs:292-322 | `key update` rewrites the key as the normalised answer (or stored key) with a recomputed fingerprint, and the comment by the update rule; the older copy at src/update.rs:538-549 behaves the same |
| Keys.UpdateKey | src/key.rs:252-327 | `key update`: an empty id, an id that is not a 64-bit integer and an id no key has are errors (`Key not found.`); it succeeds exactly when the id names a key whose rewrite is accepted, and then exactly the row with that id is rewritten, the row count is kept, and ids stay unique |
| Keys.StoredKeysFingerprint | src/key.rs:290-303 | re-checking a stored, valid key gives back that key and its stored fingerprint |
| Keys.UpdateBlankKeeps | src/key.rs:292-322 | updating a valid key with <Enter> for key and comment leaves the table as it was |
| Keys.ListKeys | src/key.rs:177-190 | `key list`: a subsequence of the rows; the email filter ignores case, the fingerprint filter does not, and a non-numeric id is an error; the older copy at src/list.rs:136-150 behaves the same |
| Users.ParseUserType | src/user.rs:76-81 | the type answer: blank is an AD user; otherwise the trimmed, lowercased word decides; the older copy at src/add.rs:124-129 behaves the same |
| Users.ParseWord | src/user.rs:76-81 | an answer without surrounding blanks is read as its lowercase form |
| Users.ParseSpaced | src/user.rs:76-81 | blanks around an answer do not change how it is read |
| Users.ParseLabels | src/user.rs:76-81 | the stored labels `AD user`, `tool user` and `external user` read back as their type |
| Users.ParseRefuses | src/user.rs:80 | any answer whose trimmed, lowercased form is not one of the six accepted words (or empty) is refused |
| Users.AdminRefused | src/user.rs:80 | `admin` is not a user type |
| Users.UpdateUserType | src/user.rs:658-664 | on update, a blank type keeps the stored one; anything else must parse as on add, else `Invalid user type.`; the older copy at src/update.rs:348-354 behaves the same |
| Users.IdByEmail | src/user.rs:583-591 | the user found by email is unique, and absent exactly when no user has the email |
| Users.AddUser | src/user.rs:33-90 | `user add`: the empty-email and taken-email errors first; success exactly when email and name are given and free and the type parses; the one new row is enabled with the add comment rule; unique columns stay unique |
| Users.UpdatedUser | src/user.rs:608-683 | the row as `user update` rewrites it: id and disabled flag kept, email and name kept on `""`, type by the type-answer rule, comment by the update rule; it succeeds exactly when the new email and name are not another user's and the type answer is valid, and fails with the email error first, then the name error, then `Invalid user type.` |
| Users.UpdateUser | src/user.rs:562-700 | `user update`: the empty-email and not-found errors; on success exactly the user with that email is replaced by its rewritten row |
| Users.UpdatedUsers | src/user.rs:608-640 | a successful update keeps emails, names and ids unique, keeps the row count and leaves every other user alone |
| Users.UpdateBlankKeeps | src/user.rs:608-683 | answering every update question with <Enter> leaves the table as it was |
| Users.AddThenTaken | src/user.rs:33-90 | after `user add` the email and name are taken and the table has one more row |
| Users.ListUsers | src/user.rs:491-512 | `user list`: email, then name, then id filters; a subsequence of the rows holding exactly the matching users; a non-numeric id is an error; the older copy at src/list.rs:39-61 behaves the same |
| Servers.IdByName | src/server.rs:682-690 | the server found by name is unique, and absent exactly when no server has the name |
| Servers.AddServer | src/server.rs:23-72 | `server add`: the empty-name, taken-name and bad-address errors in that order; success exactly when the name is free and the address parses and is free; the one new row holds the parsed address; unique columns stay unique |
| Servers.UpdateIp | src/server.rs:726-733 | on update, exactly `""` keeps the stored address; anything else must parse, else `Not a valid IP address.`; the older copy at src/update.rs:87-94 behaves the same |
| Servers.UpdatedServer | src/server.rs:706-762 | the row as `server update` rewrites it: name kept on `""` and otherwise not another server's, address by the update rule and not another server's, comment by the update rule |
| Servers.UpdateServer | src/server.rs:663-768 | `server update`: the empty-name and not-found errors; on success exactly the named server is replaced by its rewritten row |
| Servers.UpdatedServers | src/server.rs:706-743 | a successful update keeps names, addresses and ids unique, keeps the row count and leaves every other server alone |
| Servers.UpdateBlankKeeps | src/server.rs:706-762 | answering every update question with <Enter> leaves the table as it was |
| Servers.AddThenTaken | src/server.rs:23-72 | after `server add` the name and the address are taken and the table has one more row |
| Servers.ListServers | src/server.rs:588-609 | `server list`: name, then IP, then id filters; a subsequence holding exactly the matching servers; a non-numeric id is `Wrong ID format.` |
| Servers.IpFilterKeepsCase | src/server.rs:596-602 | the inexact IP filter is case-sensitive while the name filter is not |
| Groups.IdByName | src/servergroup.rs:503-510 | the group found by name is unique, and absent exactly when no group has the name |
| Groups.AddGroup | src/servergroup.rs:21-55 | `add` for server and user groups: an empty name and a taken name are errors; otherwise one new row with the add comment rule, and ids and names stay unique |
| Groups.UpdateGroup | src/servergroup.rs:485-565 | `update` for server and user groups: the empty-name and not-found errors; a new name must not be another group's; on success exactly that group is rewritten, its name kept on `""` and its comment by the update rule |
| Groups.UpdatedGroups | src/servergroup.rs:526-536 | a successful update keeps ids and names unique and the row count |
| Groups.UpdateRow | src/servergroup.rs:485-565 | updating a group by its own name rewrites exactly that row |
| Groups.UpdateBlankKeeps | src/servergroup.rs:526-555 | answering every update question with <Enter> leaves the table as it was |
| Groups.RenameBack | src/usergroup.rs:487-516 | renaming a group to a free name and back restores the table |
| ServerAccessRules.IdByName | src/serveraccess.rs:432-449 | the rule found by name is unique, and absent exactly when no rule has the name |
| ServerAccessRules.AddTarget | src/serveraccess.rs:79-129 | `add` picks exactly one of a server or a server group that exists under the given name; a given server group skips the server question; a blank or `null` server moves on to the group, and both blank is an error; the older copy at src/add.rs:786-836 behaves the same |
| ServerAccessRules.NewRule | src/serveraccess.rs:55-77 | the row `add` inserts: an empty remote account becomes `administrator`, and `from`, `command`, `option` and comment follow the add rule for optional text; the older copy at src/add.rs:762-784 behaves the same |
| ServerAccessRules.AddServerAccess | src/serveraccess.rs:26-140 | `serveraccess add`: the empty-name and taken-name errors, then the target's error; on success the one new rule |
| ServerAccessRules.AddedRule | src/serveraccess.rs:104-129 | `add` inserts one row, keeps ids and names unique, and the new rule has exactly one target, which exists |
| ServerAccessRules.InsertRule | src/serveraccess.rs:104-129 | inserting a rule with a fresh id and name adds one row and keeps ids and names unique |
| ServerAccessRules.UpdateServerId | src/serveraccess.rs:564-582 | on update, a blank server answer keeps the stored server (possibly none), `null` clears it, any other answer must name a server |
| ServerAccessRules.UpdateGroupId | src/serveraccess.rs:595-633 | without a server, a blank group answer keeps the stored group only if there is one, `null` is refused, any other answer must name a group |
| ServerAccessRules.UpdateTarget | src/serveraccess.rs:564-633 | after update exactly one of server and server group is set: a remaining server clears the group, otherwise the group question decides; the older copy at src/update.rs:756-825 behaves the same |
| ServerAccessRules.UpdatedRule | src/serveraccess.rs:471-652 | the rule as `update` rewrites it: id kept, name and remote account kept on `""`, `from`, `command`, `option` and comment by the update rule, and exactly one target |
| ServerAccessRules.ReplacedKeepsUnique | src/serveraccess.rs:471-481 | replacing a rule by one with its id and a name no other rule has keeps ids and names unique and the row count |
| ServerAccessRules.UpdateServerAccess | src/serveraccess.rs:401-655 | `serveraccess update`: the empty-name and not-found errors; a rewritten row whose name another rule has is the duplicate-name error; it succeeds exactly when the named rule exists, its rewrite is accepted and the new name clashes with no other rule, and then the named rule is replaced by its rewritten row |
| ServerAccessRules.UpdatedRules | src/serveraccess.rs:471-633 | a successful update keeps ids and names unique and the row count, and the rule under its new name has exactly one target |
| ServerAccessRules.UpdateBlankKeeps | src/serveraccess.rs:471-652 | answering every update question with <Enter> leaves the table as it was when the rule had one target, and is the both-empty error when it had none |
| ServerAccessRules.RetargetToServer | src/serveraccess.rs:564-597 | moving a rule to an existing server drops its group |
| ServerAccessRules.RetargetToGroup | src/serveraccess.rs:569-633 | clearing the server with `null` and naming an existing group moves the rule to that group |
| ServerAccessRules.ServerSideReached | src/serveraccess.rs:240-253 | the servers the detailed listing joins a rule with are exactly the servers `generate` reaches from it |
| ServerAccessRules.DetailedListsReachedServers | src/serveraccess.rs:231-256 | every server a rule reaches shows in the detailed listing with that rule's name and remote account |
| ServerAccessRules.DetailedRowsReached | src/serveraccess.rs:231-256 | every row of the detailed listing is a server that some rule of that name reaches |
| ServerAccessRules.EmptyGroupRuleHidden | src/serveraccess.rs:240-253 | a group rule whose group covers no server, and no other rule of that name, does not appear in the detailed listing |
| ServerAccessRules.EveryRuleSummarised | src/serveraccess.rs:259-285 | every rule with an existing target appears in the summary listing |
| ServerAccessRules.ListServerAccess | src/serveraccess.rs:303-356 | `serveraccess list`: a subsequence of the rows holding exactly those every given filter keeps |
| ServerAccessRules.FiltersDropAbsent | src/serveraccess.rs:311-356 | the ip, server and server group filters never keep a row whose column is empty |
| GroupList.ServerListedUnderSupergroups | src/servergroup.rs:367-379 | a server is listed under a group exactly when it is a direct member of that group or of a group the group is a transitive supergroup of |
| GroupList.CoveringMembership | src/servergroup.rs:367-379 | a server listed under a group has a direct membership in that group or in one nested under it |
| GroupList.UserListedUnderSupergroups | src/usergroup.rs:357-367 | a user is listed under a group exactly when some membership of theirs is in that group itself or in a group from which it is reached by nesting edges (matched on the listed name, email and comment) |
| GroupList.UserCoveringMembership | src/usergroup.rs:357-367 | a user listed under a group has a direct membership in that group or in one nested below it |
| GroupList.EveryGroupListed | src/servergroup.rs:367-369 | the left join lists every group, with or without members |
| GroupList.ListServerGroups | src/servergroup.rs:408-448 | `servergroup list`: a subsequence of the rows holding exactly those the `all`, `--empty`, name, server and ip filters keep; the older copy at src/list.rs:405-411 behaves the same |
| GroupList.AllHiddenUnlessAsked | src/servergroup.rs:408-410 | without `--all` the group named `all` never shows |
| GroupList.EmptyExcludesMemberFilters | src/servergroup.rs:412-448 | `--empty` together with a server or ip filter lists nothing |
| GroupList.ListUserGroups | src/usergroup.rs:394-417 | `usergroup list`: a subsequence of the rows holding exactly those the `--empty`, email and name filters keep |
| GroupList.EmailFilterListsMembership | src/usergroup.rs:398-409 | with an email filter, a row listed from the detailed query names a matching user reached through that group |
| Grants.AddPrincipal | src/useraccess.rs:37-92 | `add` picks exactly one of a user or a user group that exists under the given name; a given user group skips the email question; a blank or `null` email moves on to the group, and both blank is an error; the older copy at src/add.rs:879-934 behaves the same |
| Grants.ParseUntil | src/useraccess.rs:106-146 | blank or `null` is the unlimited expiry 2256-05-11 00:00:00; otherwise one `' '`-separated piece is a date at midnight, two are a date and a time, more are an error, each failure with its own message; an answer that is neither blank nor `null` succeeds exactly when it has at most two pieces, the first parses as a date and the second, if any, as a time; the older copy at src/add.rs:951-995 behaves the same |
| Grants.SpacedIsNotNull | src/useraccess.rs:106-116 | an answer with no surrounding blanks that holds a space is neither blank nor `null` |
| Grants.ParseDateSpaceTime | src/useraccess.rs:127-141 | a date and a time with one space between them are read as that date and time |
| Grants.TrailingSpaceFails | src/useraccess.rs:127-141 | a trailing space leaves an empty time piece, which fails as `Could not parse time.` |
| Grants.NewGrant | src/useraccess.rs:66-92 | the row `add` inserts holds the chosen principal, the rule, the expiry, and the comment by the add rule |
| Grants.AddUserAccess | src/useraccess.rs:26-170 | `useraccess add`: the principal's error, then the empty and unknown rule name, then the expiry's error; on success the one new grant |
| Grants.AddedGrant | src/useraccess.rs:37-104 | `add` inserts one row whose grant has exactly one principal, which exists, and points at the named rule |
| GrantList.UserSideReached | src/useraccess.rs:339-352 | the users the detailed listing joins a grant with are exactly the users `generate` reaches from it |
| GrantList.ExpiredDisjoint | src/useraccess.rs:452-454 | `--expired` swaps `>=` for `<`, so the expired and the default view never list the same row |
| GrantList.ExpiredCovers | src/useraccess.rs:452-454 | together the two views list exactly the joined rows that pass the enabled condition |
| GrantList.DisabledComplements | src/useraccess.rs:456-459 | `--disabled` turns the enabled condition into its complement: the two views partition the joined rows of the same expiry |
| GrantList.GeneratedIsListed | src/useraccess.rs:331-372 | every tuple `generate` emits is listed by the default detailed view |
| GrantList.ExpiryBoundary | src/useraccess.rs:371 | a grant expiring exactly now is listed as current although `generate` (src/serverauth.rs:146) no longer emits it |
| GrantList.OldSummaryShowsDisabledUsers | src/list.rs:672-690 | the older summary query lists a disabled user's direct grant, which the newer one (src/useraccess.rs:389-394) hides |
| GrantList.ListGrants | src/useraccess.rs:476-556 | `useraccess list`: a subsequence of the rows holding exactly those every given filter keeps; the ip, server name, server group and user group filters drop rows whose column is empty |
| Resolution.TruncateComment | src/serverauth.rs:112 | `SUBSTRING(comment, 1, 64)`: a present comment stays present and becomes its prefix of exactly min(64, length) characters |
| Resolution.ResolveGranted | src/serverauth.rs:103-148 | a row is in the result exactly when some grant, its rule, a user, a server and one of the user's keys exist such that the grant names the user directly or through a group the user is a member of (the granted group itself or one from which it is reached by nesting edges), the rule names the server in the same way, the user is enabled, the grant has not expired, the server is enabled, and the tuple projects to the row with the comment cut to 64 characters (`SELECT DISTINCT` over the whole tuple); the older copy at src/generate.rs:100-146 behaves the same |
| Resolution.UserGrantedIff | src/serverauth.rs:113-127 | the user side of the join through the computed ancestor sets holds exactly when the grant names the user, or a group of the user's equals or is reached from the granted group by nesting edges |
| Resolution.ServerGrantedIff | src/serverauth.rs:128-142 | the server side of the join through the computed ancestor sets holds exactly when the rule names the server, or a group of the server's equals or is reached from the granted group by nesting edges |
| Resolution.RowFacts | src/serverauth.rs:143-146 | every row pairs an enabled user with one of that user's own keys, on an enabled server, with a comment of at most 64 characters |
| Resolution.UserReachedIff | src/serverauth.rs:114-127 | a user group grant reaches exactly the direct members of the granted group and of every group the granted group is a transitive supergroup of |
| Resolution.ServerReachedIff | src/serverauth.rs:129-142 | a server group rule reaches exactly the direct members of its group and of every group nested under it |
| Resolution.ExpiryMonotone | src/serverauth.rs:145 | `best_before > NOW()`: a later time never adds rows |
| Resolution.AllExpired | src/serverauth.rs:145 | when every grant's expiry has been reached, the result is empty |
| Resolution.DisableUserRemovesOnlyTheirs | src/serverauth.rs:144 | disabling a user removes exactly that user's rows |
| Resolution.DisableServerRemovesOnlyItsRows | src/serverauth.rs:146 | disabling a server removes exactly the rows on its address, when no other enabled server shares it |
| Closure.Saturate | src/serverauth.rs:117-125 | the least superset of the start set that is closed under taking supergroups; it terminates on cycles because it grows inside the finite set of groups that are supergroups of something |
| Closure.Ancestors | src/serverauth.rs:117-125 | `WITH RECURSIVE subgroups`: contains the direct supergroups and is closed under taking supergroups |
| Closure.AncestorsIff | src/serverauth.rs:117-125 | a group is in the closure exactly when it is reachable upward from the start group by one or more nesting edges |
| Closure.AncestorsWorklist | src/serverauth.rs:117-125 | the round-by-round evaluation of the recursive query (`UNION` drops repeats) computes the same closure |
| Closure.Step | src/serverauth.rs:117-125 | one round of the worklist keeps its invariant: the result stays inside the closure and every group already expanded has its supergroups in it |
| Closure.CycleExample | src/serverauth.rs:117-125 | with two groups nested in each other, the closure of either is both groups: the recursion stops on a cycle |
| Dns.Decide | src/serverauth.rs:60-77 | per server: a failed lookup skips it, a stored address among the resolved ones is kept, otherwise the first resolved address replaces it; an empty address list is the `iplist[0]` panic |
| Dns.Update | src/serverauth.rs:75-98 | `UPDATE server SET ip = $1 WHERE name = $2`: an address that another server already holds fails the statement and leaves the table unchanged |
| Dns.UpdateKeepsOtherColumns | src/serverauth.rs:55 | the update changes the `ip` column only |
| Dns.RefreshKeepsOtherColumns | src/serverauth.rs:48-99 | the whole refresh changes the `ip` column only |
| Dns.RefreshKeepsName | src/serverauth.rs:48-99 | every server that existed before the refresh still exists after it |
| Dns.UpdateKeepsUnique | src/serverauth.rs:75-98 | because a clashing update fails, ids, names and addresses stay unique |
| Dns.RefreshKeepsUnique | src/serverauth.rs:48-99 | the whole refresh keeps ids, names and addresses unique |
| Dns.RefreshAbortsIff | src/serverauth.rs:57-77 | the refresh panics exactly when some processed name resolves to an empty list of addresses; the older copy at src/generate.rs:53-97 behaves the same |
| Dns.Scenario | src/generate.rs:53-94 | a server whose name now resolves to another address is moved to that address |
| Format.FormatLineIsOptionsField | src/generate.rs:171-211 | the line built piece by piece is the present options, comma-joined in the order `from=`, `command=`, option, then one space, the key, a space, the email and the comment part |
| Format.JoinTwo | src/generate.rs:173-201 | two options are joined by one comma |
| Format.JoinThree | src/generate.rs:173-201 | three options are joined by two commas |
| Format.PlainLine | src/generate.rs:171-206 | with no option and no comment the line is exactly the key, a space and the email |
| Format.FromSeparator | src/generate.rs:174-183 | `from="..."` is followed by a comma exactly when a command or an option follows, otherwise by a space |
| Format.LineEnding | src/serverauth.rs:204-212 | with a comment the line ends with a space, the email, a space and the comment in parentheses; without one it ends with a space and the email; the older copy at src/generate.rs:203-211 behaves the same |
| Format.AllOptionsLine | src/serverauth.rs:174-212 | with all three options and a comment the line is `from="...",command="...",option key email (comment)` |
| Buckets.Select | src/generate.rs:213-215 | the rows of one `(ip, sshuser)` bucket: drawn from the rows and holding every row of that key |
| Buckets.SelectAppend | src/generate.rs:213-215 | a new row extends its own bucket only, at the end |
| Buckets.PushBucket | src/generate.rs:213-215 | `entry(..).or_insert_with(Vec::new).push(line)` appends the row's line to its own bucket and leaves the others as they were |
| Buckets.PushKeys | src/generate.rs:213-215 | each push adds the row's key and exactly one line to the total |
| Buckets.GroupLines | src/generate.rs:155-216 | the buckets are exactly the keys of the rows; each bucket holds the lines of its rows in row order, is never empty, and the lines over all buckets number the rows |
| Buckets.RetainIp | src/generate.rs:218-220 | with an address filter a bucket survives exactly when its textual address contains the filter, unchanged; without one nothing is dropped |
| Buckets.Entries | src/generate.rs:222-233 | one entry for each bucket, with its address, remote user and lines |
| Buckets.EntriesKeyed | src/generate.rs:222-233 | no two entries share an address and a remote user |
| AuthorizedKeys.OrderRows | src/serverauth.rs:147-148 | the rows come out distinct, each row of the result once, ordered by user id and then key id |
| AuthorizedKeys.SelectKeeps | src/serverauth.rs:147-148 | a bucket keeps the order and distinctness of the rows, so its lines follow user id and key id |
| AuthorizedKeys.BucketSize | src/serverauth.rs:158-216 | a bucket holds as many lines as the resolved result has rows for its key |
| AuthorizedKeys.SubstringFilter | src/serverauth.rs:219-221 | `--ip` as a filter: no option keeps every address, otherwise an address is kept exactly when it contains the text |
| AuthorizedKeys.KeptEntry | src/serverauth.rs:158-216 | every line of a bucket is the line of one of its resolved rows, one line per row, and the bucket is the lines of its rows in query order |
| AuthorizedKeys.RowListed | src/serverauth.rs:214-221 | a resolved row that passes the address filter has its line in its bucket's entry |
| AuthorizedKeys.LineInBucket | src/serverauth.rs:214-216 | every row's line is in the bucket of its key |
| AuthorizedKeys.GroupedProduces | src/serverauth.rs:147-235 | the entries are non-empty, pass the filter, consist of their rows' lines one per row in user-id, key-id order, cover every row that passes the filter, and never share an address and user |
| AuthorizedKeys.Generate | src/serverauth.rs:47-236 | `generate`: the refresh's panic ends the run; otherwise the entries are what the grants resolve to over the refreshed servers at that time, grouped per address and user with each file's lines in user-id, key-id order, and filtered by address substring; the older copy at src/generate.rs:42-235 behaves the same |
| AuthorizedKeys.IpOfName | src/serverauth.rs:243-253 | `SELECT ip FROM server WHERE name = $1`: absent exactly when no server has that name, otherwise that server's address |
| AuthorizedKeys.ListServerAuth | src/serverauth.rs:238-260 | `list`: an unknown server name prints nothing and succeeds; a known one turns into its stored address, which filters the output by substring; the older copy at src/list.rs:294-311 behaves the same |
| AuthorizedKeys.NameFilterOverMatches | src/serverauth.rs:219-221 | asking for the server at `10.0.0.1` also keeps the bucket of `10.0.0.12` |
| AuthorizedKeys.RetainServer | src/serverauth.rs:243-260 | keeps exactly the buckets of one address, unchanged |
| AuthorizedKeys.ListServerAuthByName | src/serverauth.rs:243-260 | the intended name listing: unknown name prints nothing; otherwise exactly the files at the address the named server has after the refresh: each made of that server's resolved lines one per row in query order, and every resolved row at that address listed in its file |
| AuthorizedKeys.ServerEntries | src/serverauth.rs:219-233 | narrowing the unfiltered buckets to one address keeps only entries at that address, each still made of its rows' lines, and every row at that address still listed |
| Listing.Retain | src/user.rs:491-512 | `Vec::retain`: keeps exactly the rows the predicate accepts, in their order |
| Listing.RetainRetain | src/user.rs:491-512 | two filters in a row keep what their conjunction keeps |
| Listing.RetainCommutes | src/useraccess.rs:476-556 | the order of the filters does not matter |
| Listing.IsSubseqTrans | src/useraccess.rs:476-556 | a filter of a filter is still an order-preserving selection of the rows |
| Listing.MatchesFacts | src/user.rs:491-505 | an exact match is also an inexact one, and the inexact comparison ignores case on both sides |
| Listing.FilterText | src/user.rs:491-505 | an optional text filter keeps, in order, exactly the rows whose column matches; no filter keeps everything |
| Listing.FilterOptText | src/useraccess.rs:484-508 | the same for a nullable column, where a row without a value never matches |
| Listing.FilterWith | src/servergroup.rs:416-448 | an optional filter with its own comparison keeps, in order, exactly the rows it accepts |
| Listing.FilterId | src/user.rs:506-512 | an id filter that is not a 64-bit integer is `Wrong ID format.`; otherwise it keeps, in order, exactly the rows with that id; the older copy at src/list.rs:55-61 behaves the same |
| IntParse.ParseShow | src/key.rs:276 | every integer's decimal form parses back to it inside the 64-bit range and is refused outside it |
| IntParse.RejectsNonNumbers | src/server.rs:605 | an empty answer, a lone sign, trailing letters and a leading space are not ids |
| Text.Split | src/key.rs:231 | `split(' ')`: at least one piece, no piece holds a space, and joining the pieces with spaces gives the input back |
| Text.SplitJoin | src/key.rs:58-62 | splitting space-free pieces joined by spaces gives the pieces back |
| Text.SplitHasTwoIff | src/key.rs:233 | a text splits into two or more pieces exactly when it holds a space |
| Text.Trim | src/main.rs:109 | `trim`: the slice of the input between a whitespace prefix and a whitespace suffix, with no whitespace at either end, and empty exactly when the input is all whitespace |
| Text.TrimIdempotent | src/main.rs:109 | trimming twice is trimming once |
| Text.Lower | src/key.rs:65 | `to_lowercase` on ASCII: same length, upper-case letters become lower-case, everything else stays |
| Text.LowerIdempotent | src/key.rs:65 | lowercasing twice is lowercasing once |
| Text.NormEmptyIff | src/key.rs:65-69 | the trimmed, lowercased answer is empty exactly when the answer is all whitespace |
| Text.ContainsIff | src/generate.rs:219 | `contains`: the needle occurs at some position of the text |
| Text.TrimEndChar | src/main.rs:208 | `trim_end_matches('=')`: removes exactly the trailing run of that character |
| Text.Truncate | src/serverauth.rs:112 | `SUBSTRING(s, 1, n)`: the prefix of exactly `n` characters of a longer text, the whole text when it is short enough |
| Text.TruncateTwice | src/serverauth.rs:112 | cutting to `n` and then to `m` is cutting to the smaller of the two |
| Base64.EncodeNoPad | src/key.rs:244 | the unpadded standard encoding uses only alphabet characters |
| Base64.Padding | src/main.rs:207 | the padding of the standard encoding: only `=`, as many as the input length leaves over to a multiple of three |
| Base64.PaddedIsNoPadPlusPadding | src/main.rs:207 | the padded encoding is the unpadded one followed by its padding |
| Base64.TrimmedPaddedIsNoPad | src/main.rs:206-208 | trimming the trailing `=` of `SHA256:` and the padded encoding gives `SHA256:` and the unpadded encoding |
| Base64.DecodeEncode | src/key.rs:239-244 | decoding the unpadded encoding gives the bytes back |
| Base64.EncodeDecode | src/key.rs:239-244 | any text the unpadded decoder accepts is the encoding of what it decodes to |

## Left out

- PostgreSQL itself is not modelled: connections, statements and transactions. The queries are modelled by what they select. Their failures are left out, since the commands exit on them. One exception: a clashing `UPDATE` is modelled, because both the DNS refresh and `serveraccess update` depend on it.
- Bag semantics is not modelled: result rows are sets. The detailed listing queries are not `DISTINCT`, so they can show a row twice. The model shows it once.
- Row order between ties is left open. `ORDER BY "user".id, sshkeys.id` fixes the order only up to rows that share both ids. `AuthorizedKeys.OrderRows` allows any order among such rows. The listings' `ORDER BY` clauses are not modelled, since they only affect display.
- `HashMap` iteration order is not modelled: the generated files are a set of entries.
- `write` and `write_to` are left out: they clean the output tree, skip hidden entries and append to files, which is file-system work.
- Terminal output is left out: prettytable rendering, colours, JSON serialisation and the `?` candidate lists that `ask_for` prints.
- Command-line parsing is left out (`cli.rs` and `commands/`). It only turns arguments into the optional answers the model takes as inputs.
- `delete.rs` and `maintenance.rs` are left out: each is a single SQL mutation behind a confirmation prompt.
- The commands that add or remove group and nesting memberships are left out: they insert or delete a single link row.
- The old layout's update commands select the row by a numeric id. Only the id parse is modelled, as `IntParse.ParseI64`; the selection by id follows the newer name-based commands.
- The older commands' own error message texts are not modelled separately.
- SHA-256, base64 decoding, `IpAddr` and `Ipv6Addr` parsing, the `time` crate's date and time parsing, and DNS name resolution are left to parameters. They are foreign crates.
- Reading `SSH_CONNECTION` and the configuration file is left to the caller. A configuration file that does not parse as TOML ends the program before any rule applies.
- The logging backend is left out (`create_logger`, `info!`, `warn!`).
- Text.Lower: lowercases ASCII letters only, whereas `to_lowercase` also lowercases non-ASCII letters. Every keyword the commands compare with (`null`, `ad user`, ...) is ASCII, so blank/`null` and type decisions are unchanged. An inexact listing filter with non-ASCII capitals can match differently.
- Prompt.AskFor: a supplied answer whose trimmed form ends in `?` makes the source loop forever. The model gives no answer (`None`) instead of a loop.
- GroupList.ListServerGroups: the `subgroups` display column of the detailed group listings is not modelled.
- Resolution.ResolveGranted: a grant or rule with both targets set is read as the union of the two joins. The add and update commands never create such a row.
- ServerAccessRules.DetailedRowsReached: the `servergroup` column of a detailed row holds the server's direct group. It is not the rule's group.
- GrantList.UserSideReached: the `usergroup` column of a detailed row holds the user's direct group. It is not the granted group.
- Grants.ParseUntil: an instant is an integer, and the conversion from the stored timestamp (done in the database's session time zone) is a parameter.

## Findings

| source | as written | input that shows it | evidently intended | confidence | as-written member | corrected member |
|---|---|---|---|---|---|---|
| src/serverauth.rs:243-260 | `list serverauth --servername` turns the name into the server's stored IP and passes it to `generate` as the `--ip` substring filter (src/serverauth.rs:219-221) | servers at `10.0.0.1` and `10.0.0.12`, asking for the first by name, also prints the second's files | only the named server's files, at the address it has after the refresh | medium; not executed | AuthorizedKeys.ListServerAuth, AuthorizedKeys.NameFilterOverMatches | AuthorizedKeys.ListServerAuthByName |
