/** `user add`, `user update` and `user list` (src/user.rs). Answers are
    the values `ask_for`/`set_or_ask_for` returned; the table is a set of
    rows; a new row receives the id the database assigns, an input here. */
module Users {
  import opened Wrappers
  import Text
  import Prompt
  import opened Schema
  import Listing
  import IntParse

  /** The `usertype` labels stored in the database. */
  function TypeLabel(t: UserType): string
  {
    match t
    case AD => "AD user"
    case Tool => "tool user"
    case External => "external user"
  }

  /** The words `add` accepts for a type, after trimming and lowercasing;
      the empty answer is the default, an AD user. */
  function TypeOfWord(word: string): Option<UserType>
  {
    match word
    case "ad" => Some(AD)
    case "ad user" => Some(AD)
    case "" => Some(AD)
    case "tool" => Some(Tool)
    case "tool user" => Some(Tool)
    case "external" => Some(External)
    case "external user" => Some(External)
    case _ => None
  }

  /** The type answer of `add`. */
  function ParseUserType(answer: string): (r: Option<UserType>)
    ensures Text.AllWhitespace(answer) ==> r == Some(AD)
  {
    Text.NormEmptyIff(answer);
    TypeOfWord(Text.Norm(answer))
  }

  /** A word without surrounding blanks is read as its lowercase form. */
  lemma ParseWord(s: string, n: string)
    requires |s| > 0 && !Text.IsWhitespace(s[0]) && !Text.IsWhitespace(s[|s| - 1])
    requires Text.Lower(s) == n
    ensures ParseUserType(s) == TypeOfWord(n)
  {
    Text.TrimNoop(s);
  }

  /** Blanks around the answer do not change how it is read. */
  lemma ParseSpaced(s: string)
    requires |s| > 0 && !Text.IsWhitespace(s[0]) && !Text.IsWhitespace(s[|s| - 1])
    ensures ParseUserType(" " + s + " ") == ParseUserType(s)
  {
    Text.TrimNoop(s);
    assert Text.Trim(" " + s + " ") == s by {
      assert (" " + s + " ")[1..|s| + 1] == s;
    }
  }

  /** The stored labels map back to their type. */
  lemma ParseLabels(t: UserType)
    ensures ParseUserType(TypeLabel(t)) == Some(t)
  {
    match t
    case AD => LowerLabel("AD user", "ad user"); ParseWord("AD user", "ad user");
    case Tool => LowerLabel("tool user", "tool user"); ParseWord("tool user", "tool user");
    case External => LowerLabel("external user", "external user"); ParseWord("external user", "external user");
  }

  /** The lowercase form of a stored label. */
  lemma LowerLabel(stored: string, word: string)
    requires (stored, word) in {("AD user", "ad user"), ("tool user", "tool user"), ("external user", "external user")}
    ensures Text.Lower(stored) == word
  {
  }

  /** An answer whose trimmed, lowercased form is not one of the listed
      words is refused. */
  lemma ParseRefuses(s: string)
    requires Text.Norm(s) !in {"", "ad", "ad user", "tool", "tool user", "external", "external user"}
    ensures ParseUserType(s) == None
  {
  }

  /** For instance `admin`. */
  lemma AdminRefused()
    ensures ParseUserType("admin") == None
  {
    ParseWord("admin", "admin");
    ParseRefuses("admin");
  }

  /** The type answer of `update`: blank keeps the stored type, anything
      else is read as `add` reads it. */
  function UpdateUserType(answer: string, stored: UserType): (r: Result<UserType, string>)
    ensures Text.Norm(answer) == "" ==> r == Ok(stored)
    ensures Text.Norm(answer) != "" ==> (r.Ok? <==> ParseUserType(answer).Some?)
    ensures Text.Norm(answer) != "" && r.Ok? ==> r.value == ParseUserType(answer).value
    ensures r.Err? ==> r.error == "Invalid user type."
  {
    if Text.Norm(answer) == "" then Ok(stored)
    else match ParseUserType(answer)
      case Some(t) => Ok(t)
      case None => Err("Invalid user type.")
  }

  /** Ids, emails and names of users are unique columns. */
  predicate UsersUnique(users: set<User>)
  {
    forall u, v :: u in users && v in users && u != v ==> u.id != v.id && u.email != v.email && u.name != v.name
  }

  predicate EmailTaken(users: set<User>, email: string)
  {
    exists u :: u in users && u.email == email
  }

  predicate NameTaken(users: set<User>, name: string)
  {
    exists u :: u in users && u.name == name
  }

  /** The id of the user with `email`. */
  function IdByEmail(users: set<User>, email: string): (r: Option<int>)
    requires UsersUnique(users)
    ensures r.Some? <==> EmailTaken(users, email)
    ensures r.Some? ==> forall u :: u in users && u.email == email ==> u.id == r.value
  {
    if EmailTaken(users, email) then
      var u :| u in users && u.email == email;
      Some(u.id)
    else None
  }

  /** `user add`: the checks in the order the command makes them, then the
      new row (enabled, the comment absent when blank or `null`). */
  function AddUser(users: set<User>, newId: int, email: string, name: string, typeAnswer: string, comment: string)
    : (r: Result<set<User>, string>)
    requires forall u :: u in users ==> u.id != newId
    ensures r.Ok? <==> email != "" && !EmailTaken(users, email) && name != "" && !NameTaken(users, name)
                       && ParseUserType(typeAnswer).Some?
    ensures email == "" ==> r == Err("User email cannot be empty.")
    ensures email != "" && EmailTaken(users, email) ==> r == Err("Email already in use.")
    ensures r.Ok? ==> r.value - users == {User(newId, email, name, ParseUserType(typeAnswer).value, false, Prompt.BlankOrNull(comment))}
    ensures r.Ok? ==> users <= r.value
    ensures r.Ok? && UsersUnique(users) ==> UsersUnique(r.value)
  {
    if email == "" then Err("User email cannot be empty.")
    else if EmailTaken(users, email) then Err("Email already in use.")
    else if name == "" then Err("User name cannot be empty.")
    else if NameTaken(users, name) then Err("User name already in use.")
    else match ParseUserType(typeAnswer)
      case None => Err("Invalid user type.")
      case Some(t) =>
        var u := User(newId, email, name, t, false, Prompt.BlankOrNull(comment));
        InsertUser(users, u);
        Ok(users + {u})
  }

  /** A row with a fresh id, email and name is one more row and keeps the
      unique columns unique. */
  lemma InsertUser(users: set<User>, u: User)
    requires forall v :: v in users ==> v.id != u.id
    requires !EmailTaken(users, u.email) && !NameTaken(users, u.name)
    ensures (users + {u}) - users == {u} && |users + {u}| == |users| + 1
    ensures UsersUnique(users) ==> UsersUnique(users + {u})
  {
    assert u !in users;
  }

  /** Another user than `id` already has `email`. */
  predicate EmailTakenByOther(users: set<User>, email: string, id: int)
  {
    exists u :: u in users && u.email == email && u.id != id
  }

  predicate NameTakenByOther(users: set<User>, name: string, id: int)
  {
    exists u :: u in users && u.name == name && u.id != id
  }

  /** The row as `user update` rewrites it, or the command's error. */
  function UpdatedUser(users: set<User>, prev: User, newEmail: string, newName: string, typeAnswer: string, comment: string)
    : (r: Result<User, string>)
    ensures r.Ok? ==> r.value.id == prev.id && r.value.disabled == prev.disabled
    ensures r.Ok? ==> r.value.email == Prompt.KeepIfEmpty(newEmail, prev.email)
    ensures r.Ok? ==> r.value.name == Prompt.KeepIfEmpty(newName, prev.name)
    ensures r.Ok? ==> r.value.comment == Prompt.TriState(comment, prev.comment)
    ensures r.Ok? ==> !EmailTakenByOther(users, r.value.email, prev.id) || newEmail == ""
    ensures r.Ok? ==> !NameTakenByOther(users, r.value.name, prev.id) || newName == ""
    ensures r.Ok? ==> UpdateUserType(typeAnswer, prev.userType) == Ok(r.value.userType)
    ensures r.Ok? <==> (&& (newEmail == "" || !EmailTakenByOther(users, newEmail, prev.id))
                        && (newName == "" || !NameTakenByOther(users, newName, prev.id))
                        && UpdateUserType(typeAnswer, prev.userType).Ok?)
    ensures newEmail != "" && EmailTakenByOther(users, newEmail, prev.id) ==> r == Err("User email already in use.")
    ensures ((newEmail == "" || !EmailTakenByOther(users, newEmail, prev.id)) &&
             newName != "" && NameTakenByOther(users, newName, prev.id)) ==> r == Err("User name already in use.")
    ensures (r.Err? && (newEmail == "" || !EmailTakenByOther(users, newEmail, prev.id)) &&
             (newName == "" || !NameTakenByOther(users, newName, prev.id))) ==> r.error == "Invalid user type."
  {
    var email := Prompt.KeepIfEmpty(newEmail, prev.email);
    var name := Prompt.KeepIfEmpty(newName, prev.name);
    if newEmail != "" && EmailTakenByOther(users, newEmail, prev.id) then Err("User email already in use.")
    else if newName != "" && NameTakenByOther(users, newName, prev.id) then Err("User name already in use.")
    else match UpdateUserType(typeAnswer, prev.userType)
      case Err(e) => Err(e)
      case Ok(t) => Ok(prev.(email := email, name := name, userType := t, comment := Prompt.TriState(comment, prev.comment)))
  }

  /** `user update`: find the user by email, then rewrite the row. */
  function UpdateUser(users: set<User>, oldEmail: string, newEmail: string, newName: string, typeAnswer: string, comment: string)
    : (r: Result<set<User>, string>)
    requires UsersUnique(users)
    ensures oldEmail == "" ==> r == Err("User email cannot be empty.")
    ensures oldEmail != "" && !EmailTaken(users, oldEmail) ==> r == Err("User not found.")
    ensures r.Ok? <==> oldEmail != "" && exists prev :: (
      && prev in users && prev.email == oldEmail
      && UpdatedUser(users, prev, newEmail, newName, typeAnswer, comment).Ok?)
    ensures r.Ok? ==> exists prev :: (
      && prev in users && prev.email == oldEmail
      && var u := UpdatedUser(users, prev, newEmail, newName, typeAnswer, comment);
         u.Ok? && r.value == users - {prev} + {u.value})
  {
    if oldEmail == "" then Err("User email cannot be empty.")
    else if !EmailTaken(users, oldEmail) then Err("User not found.")
    else
      var prev :| prev in users && prev.email == oldEmail;
      assert forall p :: p in users && p.email == oldEmail ==> p == prev;
      match UpdatedUser(users, prev, newEmail, newName, typeAnswer, comment)
      case Err(e) => Err(e)
      case Ok(u) => Ok(users - {prev} + {u})
  }

  /** Rewriting one row with its id kept and an email and name no other row
      holds keeps the columns unique, the row count and every other row. */
  lemma ReplaceUser(users: set<User>, prev: User, u: User)
    requires UsersUnique(users) && prev in users && u.id == prev.id
    requires !EmailTakenByOther(users, u.email, prev.id) && !NameTakenByOther(users, u.name, prev.id)
    ensures UsersUnique(users - {prev} + {u})
    ensures |users - {prev} + {u}| == |users|
    ensures forall v :: v in users && v != prev ==> v in users - {prev} + {u}
  {
    var rest := users - {prev};
    assert forall v :: v in rest ==> v.id != prev.id;
    assert |rest + {u}| == |rest| + 1;
  }

  /** A successful `user update` keeps emails, names and ids unique, keeps
      the row count, and leaves every other user's row alone. */
  lemma UpdatedUsers(users: set<User>, oldEmail: string, newEmail: string, newName: string, typeAnswer: string, comment: string)
    requires UsersUnique(users)
    requires UpdateUser(users, oldEmail, newEmail, newName, typeAnswer, comment).Ok?
    ensures var after := UpdateUser(users, oldEmail, newEmail, newName, typeAnswer, comment).value;
      && UsersUnique(after) && |after| == |users|
      && forall v :: v in users && v.email != oldEmail ==> v in after
  {
    var after := UpdateUser(users, oldEmail, newEmail, newName, typeAnswer, comment).value;
    var prev :| prev in users && prev.email == oldEmail
      && var u := UpdatedUser(users, prev, newEmail, newName, typeAnswer, comment); u.Ok? && after == users - {prev} + {u.value};
    var u := UpdatedUser(users, prev, newEmail, newName, typeAnswer, comment).value;
    ReplaceUser(users, prev, u);
  }

  /** Answering every question of `user update` with <Enter> leaves the
      table as it was. */
  lemma UpdateBlankKeeps(users: set<User>, email: string)
    requires UsersUnique(users) && email != "" && EmailTaken(users, email)
    ensures UpdateUser(users, email, "", "", "", "") == Ok(users)
  {
    var prev :| prev in users && prev.email == email;
    assert Text.Norm("") == "";
    assert forall p :: p in users && p.email == email ==> p == prev;
    assert UpdatedUser(users, prev, "", "", "", "") == Ok(prev);
    assert users - {prev} + {prev} == users;
  }

  /** A user added by `user add` is found by its email afterwards, and its
      email and name are then taken. */
  lemma AddThenTaken(users: set<User>, newId: int, email: string, name: string, typeAnswer: string, comment: string)
    requires forall u :: u in users ==> u.id != newId
    requires AddUser(users, newId, email, name, typeAnswer, comment).Ok?
    ensures var after := AddUser(users, newId, email, name, typeAnswer, comment).value;
      EmailTaken(after, email) && NameTaken(after, name) && |after| == |users| + 1
  {
    var after := AddUser(users, newId, email, name, typeAnswer, comment).value;
    var u := User(newId, email, name, ParseUserType(typeAnswer).value, false, Prompt.BlankOrNull(comment));
    assert u in after - users;
    assert after == users + {u};
  }

  /** `user list`: email, then name, then id filters over the rows in id
      order. */
  function ListUsers(rows: seq<User>, email: Option<string>, name: Option<string>, id: Option<string>, exact: bool)
    : (r: Result<seq<User>, string>)
    ensures r.Err? <==> id.Some? && Listing.FilterId(rows, id, (u: User) => u.id).Err?
    ensures r.Ok? ==> Listing.IsSubseq(r.value, rows)
    ensures r.Ok? ==> forall u :: u in r.value <==>
      && u in rows
      && (email.None? || Listing.Matches(exact, u.email, email.value))
      && (name.None? || Listing.Matches(exact, u.name, name.value))
      && (id.None? || IntParse.ParseI64(id.value) == Some(u.id))
  {
    var byEmail := Listing.FilterText(rows, email, exact, (u: User) => u.email);
    var byName := Listing.FilterText(byEmail, name, exact, (u: User) => u.name);
    Listing.IsSubseqTrans(byName, byEmail, rows);
    match Listing.FilterId(byName, id, (u: User) => u.id)
    case Err(e) => Err(e)
    case Ok(byId) =>
      Listing.IsSubseqTrans(byId, byName, rows);
      Ok(byId)
  }
}
