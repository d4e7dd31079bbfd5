/** `useraccess add` (src/useraccess.rs): a grant gives one user or one user
    group one server access rule until a point in time. Date and time
    parsing (the `time` crate's `[year]-[month]-[day]` and
    `[hour]:[minute]:[second]` formats) are parameters, and so is the
    conversion of the stored `timestamp` into the instant `NOW()` is compared
    with, which the database makes in its session time zone. */
module Grants {
  import opened Wrappers
  import Text
  import Prompt
  import opened Schema
  import Users
  import Groups
  import ServerAccessRules

  datatype Date = Date(year: int, month: int, day: int)
  datatype Time = Time(hour: int, minute: int, second: int)
  datatype DateTime = DateTime(date: Date, time: Time)

  const Midnight: Time := Time(0, 0, 0)

  /** The expiry of a grant added without one: 2256-05-11 00:00:00. */
  const Unlimited: DateTime := DateTime(Date(2256, 5, 11), Midnight)

  const BothEmpty: string := "User email and user group name cannot *both* be empty."

  /** A grant names exactly one of a user or a user group. */
  predicate ExactlyOnePrincipal(g: UserAccess)
  {
    g.userId.Some? != g.usergroupId.Some?
  }

  /** The principal chosen by `add`. `emailAnswer` is `None` when a user
      group was given on the command line, in which case the email question
      is not asked; a blank or `null` email moves on to the group. */
  function AddPrincipal(users: set<User>, usergroups: set<Group>, emailAnswer: Option<string>, groupAnswer: string)
    : (r: Result<(Option<int>, Option<int>), string>)
    requires Users.UsersUnique(users) && Groups.GroupsUnique(usergroups)
    ensures r.Ok? ==> r.value.0.Some? != r.value.1.Some?
    ensures r.Ok? && r.value.0.Some? ==>
      emailAnswer.Some? && exists u :: u in users && u.email == emailAnswer.value && u.id == r.value.0.value
    ensures r.Ok? && r.value.1.Some? ==>
      exists g :: g in usergroups && g.name == groupAnswer && g.id == r.value.1.value
    ensures emailAnswer.Some? && Prompt.BlankOrNull(emailAnswer.value).Some? ==>
      (r.Ok? <==> Users.EmailTaken(users, emailAnswer.value)) && (r.Err? ==> r.error == "User not found.")
    ensures (emailAnswer.None? || Prompt.BlankOrNull(emailAnswer.value).None?) ==>
      && (Prompt.BlankOrNull(groupAnswer).None? ==> r == Err(BothEmpty))
      && (Prompt.BlankOrNull(groupAnswer).Some? ==>
            (r.Ok? <==> Groups.NameTaken(usergroups, groupAnswer)) && (r.Err? ==> r.error == "User group not found."))
  {
    var email := if emailAnswer.Some? then emailAnswer.value else "";
    if Prompt.BlankOrNull(email).None? then
      if Prompt.BlankOrNull(groupAnswer).None? then Err(BothEmpty)
      else match Groups.IdByName(usergroups, groupAnswer)
        case None => Err("User group not found.")
        case Some(g) => Ok((None, Some(g)))
    else match Users.IdByEmail(users, email)
      case None => Err("User not found.")
      case Some(u) => Ok((Some(u), None))
  }

  /** The `until` answer: blank or `null` (after trimming, in any case) is
      the unlimited expiry; otherwise the untrimmed answer is split on `' '`
      and one piece is a date at midnight, two pieces a date and a time, more
      pieces an error. */
  function ParseUntil(answer: string, parseDate: string -> Option<Date>, parseTime: string -> Option<Time>)
    : (r: Result<DateTime, string>)
    ensures Text.AllWhitespace(answer) || Text.Norm(answer) == "null" ==> r == Ok(Unlimited)
    ensures Prompt.BlankOrNull(answer).Some? ==> var t := Text.Split(answer, ' ');
      && (|t| > 2 ==> r == Err("Could not parse datetime."))
      && (|t| <= 2 && parseDate(t[0]).None? ==> r == Err("Could not parse date."))
      && (|t| == 2 && parseDate(t[0]).Some? && parseTime(t[1]).None? ==> r == Err("Could not parse time."))
      && (r.Ok? <==> |t| <= 2 && parseDate(t[0]).Some? && (|t| == 2 ==> parseTime(t[1]).Some?))
      && (r.Ok? ==> r.value.date == parseDate(t[0]).value)
      && (r.Ok? && |t| == 1 ==> r.value.time == Midnight)
      && (r.Ok? && |t| == 2 ==> r.value.time == parseTime(t[1]).value)
  {
    if Prompt.BlankOrNull(answer).None? then Ok(Unlimited)
    else
      var t := Text.Split(answer, ' ');
      if |t| == 1 then
        match parseDate(t[0])
        case None => Err("Could not parse date.")
        case Some(d) => Ok(DateTime(d, Midnight))
      else if |t| == 2 then
        match parseDate(t[0])
        case None => Err("Could not parse date.")
        case Some(d) =>
          match parseTime(t[1])
          case None => Err("Could not parse time.")
          case Some(tm) => Ok(DateTime(d, tm))
      else Err("Could not parse datetime.")
  }

  /** An answer without surrounding blanks that holds a space is neither
      blank nor the word `null`. */
  lemma SpacedIsNotNull(s: string)
    requires |s| > 0 && !Text.IsWhitespace(s[0]) && !Text.IsWhitespace(s[|s| - 1])
    requires ' ' in s
    ensures Prompt.BlankOrNull(s) == Some(s)
  {
    Text.TrimNoop(s);
    var i :| 0 <= i < |s| && s[i] == ' ';
    assert Text.Norm(s)[i] == ' ';
    assert !Text.AllWhitespace(s) by {
      assert !Text.IsWhitespace(s[0]);
    }
  }

  /** A date and a time written with one space between them are read as
      that date and time. */
  lemma ParseDateSpaceTime(d: string, tm: string, parseDate: string -> Option<Date>, parseTime: string -> Option<Time>)
    requires ' ' !in d && ' ' !in tm && |d| > 0 && |tm| > 0
    requires !Text.IsWhitespace(d[0]) && !Text.IsWhitespace(tm[|tm| - 1])
    requires parseDate(d).Some? && parseTime(tm).Some?
    ensures ParseUntil(d + " " + tm, parseDate, parseTime) == Ok(DateTime(parseDate(d).value, parseTime(tm).value))
  {
    var s := d + " " + tm;
    assert Text.Join([d, tm], ' ') == s by {
      assert [d, tm][1..] == [tm];
    }
    Text.SplitJoin([d, tm], ' ');
    assert s[0] == d[0] && s[|s| - 1] == tm[|tm| - 1] && s[|d|] == ' ';
    SpacedIsNotNull(s);
  }

  /** A trailing space leaves an empty time piece, which fails to parse. */
  lemma TrailingSpaceFails(d: string, parseDate: string -> Option<Date>, parseTime: string -> Option<Time>)
    requires ' ' !in d && |d| > 0 && !Text.IsWhitespace(d[0]) && !Text.IsWhitespace(d[|d| - 1])
    requires Text.Lower(d) != "null"
    requires parseDate(d).Some? && parseTime("").None?
    ensures ParseUntil(d + " ", parseDate, parseTime) == Err("Could not parse time.")
  {
    var s := d + " ";
    assert Text.Join([d, ""], ' ') == s by {
      assert [d, ""][1..] == [""];
    }
    Text.SplitJoin([d, ""], ' ');
    assert Text.Trim(s) == d by {
      assert s[..|d|] == d;
    }
    assert !Text.AllWhitespace(s) by {
      assert !Text.IsWhitespace(s[0]);
    }
  }

  /** The row `add` inserts. */
  function NewGrant(newId: int, principal: (Option<int>, Option<int>), ruleId: int, until: int, comment: string): (g: UserAccess)
    ensures g.id == newId && g.serveraccessId == ruleId && g.bestBefore == until
    ensures (g.userId, g.usergroupId) == principal
    ensures g.comment == Prompt.BlankOrNull(comment)
  {
    UserAccess(newId, principal.0, principal.1, ruleId, until, Prompt.BlankOrNull(comment))
  }

  /** `useraccess add`: the principal, then the rule by name, then the
      expiry; the checks in the order the command makes them. */
  function AddUserAccess(grants: set<UserAccess>, users: set<User>, usergroups: set<Group>, rules: set<ServerAccess>,
                         newId: int, emailAnswer: Option<string>, groupAnswer: string, ruleName: string,
                         untilAnswer: string, parseDate: string -> Option<Date>, parseTime: string -> Option<Time>,
                         instant: DateTime -> int, comment: string): (r: Result<set<UserAccess>, string>)
    requires Users.UsersUnique(users) && Groups.GroupsUnique(usergroups) && ServerAccessRules.RulesUnique(rules)
    requires forall g :: g in grants ==> g.id != newId
    ensures r.Ok? <==>
      && AddPrincipal(users, usergroups, emailAnswer, groupAnswer).Ok?
      && ruleName != "" && ServerAccessRules.NameTaken(rules, ruleName)
      && ParseUntil(untilAnswer, parseDate, parseTime).Ok?
    ensures AddPrincipal(users, usergroups, emailAnswer, groupAnswer).Err? ==>
      r == Err(AddPrincipal(users, usergroups, emailAnswer, groupAnswer).error)
    ensures AddPrincipal(users, usergroups, emailAnswer, groupAnswer).Ok? && ruleName == "" ==>
      r == Err("Server access name cannot be empty.")
    ensures (AddPrincipal(users, usergroups, emailAnswer, groupAnswer).Ok? && ruleName != ""
             && !ServerAccessRules.NameTaken(rules, ruleName)) ==> r == Err("Server access not found.")
    ensures r.Ok? ==> r.value == grants + {NewGrant(newId, AddPrincipal(users, usergroups, emailAnswer, groupAnswer).value,
                                                    ServerAccessRules.IdByName(rules, ruleName).value,
                                                    instant(ParseUntil(untilAnswer, parseDate, parseTime).value), comment)}
  {
    var principal := AddPrincipal(users, usergroups, emailAnswer, groupAnswer);
    if principal.Err? then Err(principal.error)
    else if ruleName == "" then Err("Server access name cannot be empty.")
    else
      var ruleId := ServerAccessRules.IdByName(rules, ruleName);
      if ruleId.None? then Err("Server access not found.")
      else
        var until := ParseUntil(untilAnswer, parseDate, parseTime);
        if until.Err? then Err(until.error)
        else Ok(grants + {NewGrant(newId, principal.value, ruleId.value, instant(until.value), comment)})
  }

  /** `add` inserts one row; the new grant has exactly one principal, which
      is a row of its table, and points at the named rule. */
  lemma AddedGrant(grants: set<UserAccess>, users: set<User>, usergroups: set<Group>, rules: set<ServerAccess>,
                   newId: int, emailAnswer: Option<string>, groupAnswer: string, ruleName: string,
                   untilAnswer: string, parseDate: string -> Option<Date>, parseTime: string -> Option<Time>,
                   instant: DateTime -> int, comment: string)
    requires Users.UsersUnique(users) && Groups.GroupsUnique(usergroups) && ServerAccessRules.RulesUnique(rules)
    requires forall g :: g in grants ==> g.id != newId
    requires AddUserAccess(grants, users, usergroups, rules, newId, emailAnswer, groupAnswer, ruleName,
                           untilAnswer, parseDate, parseTime, instant, comment).Ok?
    ensures var after := AddUserAccess(grants, users, usergroups, rules, newId, emailAnswer, groupAnswer, ruleName,
                                       untilAnswer, parseDate, parseTime, instant, comment).value;
      && |after| == |grants| + 1
      && forall g :: g in after - grants ==>
           && g.id == newId && ExactlyOnePrincipal(g)
           && (g.userId.Some? ==> exists u :: u in users && u.id == g.userId.value)
           && (g.usergroupId.Some? ==> g.usergroupId.value in GroupIds(usergroups))
           && exists a :: a in rules && a.name == ruleName && a.id == g.serveraccessId
  {
    var p := AddPrincipal(users, usergroups, emailAnswer, groupAnswer).value;
    var ruleId := ServerAccessRules.IdByName(rules, ruleName).value;
    var until := ParseUntil(untilAnswer, parseDate, parseTime).value;
    var g := NewGrant(newId, p, ruleId, instant(until), comment);
    var after := AddUserAccess(grants, users, usergroups, rules, newId, emailAnswer, groupAnswer, ruleName,
                               untilAnswer, parseDate, parseTime, instant, comment).value;
    assert after == grants + {g};
    assert g !in grants;
    assert after - grants == {g};
    assert g.usergroupId.Some? ==> g.usergroupId.value in GroupIds(usergroups);
    var a :| a in rules && a.name == ruleName;
  }
}
