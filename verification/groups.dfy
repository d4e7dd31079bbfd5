/** `usergroup add`/`update` and `servergroup add`/`update`
    (src/usergroup.rs, src/servergroup.rs). The two tables follow the same
    rules and differ only in their messages. */
module Groups {
  import opened Wrappers
  import Prompt
  import opened Schema

  /** The error messages of one group table. */
  datatype Messages = Messages(
    addEmpty: string,
    taken: string,
    updateEmpty: string,
    notFound: string,
    renameTaken: string)

  const UserGroupMessages: Messages := Messages(
    "Group name cannot be empty.",
    "Group name already in use.",
    "User group name cannot be empty.",
    "User group not found.",
    "User group name already in use.")

  const ServerGroupMessages: Messages := Messages(
    "Server group name cannot be empty.",
    "Group name already in use.",
    "Server group name cannot be empty.",
    "Server group not found.",
    "Server group name already in use.")

  /** Group ids and names are unique columns. */
  predicate GroupsUnique(groups: set<Group>)
  {
    forall g, h :: g in groups && h in groups && g != h ==> g.id != h.id && g.name != h.name
  }

  predicate NameTaken(groups: set<Group>, name: string)
  {
    exists g :: g in groups && g.name == name
  }

  predicate NameTakenByOther(groups: set<Group>, name: string, id: int)
  {
    exists g :: g in groups && g.name == name && g.id != id
  }

  /** The id of the group called `name`. */
  function IdByName(groups: set<Group>, name: string): (r: Option<int>)
    requires GroupsUnique(groups)
    ensures r.Some? <==> NameTaken(groups, name)
    ensures r.Some? ==> forall g :: g in groups && g.name == name ==> g.id == r.value
  {
    if NameTaken(groups, name) then
      var g :| g in groups && g.name == name;
      Some(g.id)
    else None
  }

  /** `add`: a non-empty unused name; the comment is absent when blank or
      `null`. */
  function AddGroup(groups: set<Group>, newId: int, name: string, comment: string, msg: Messages)
    : (r: Result<set<Group>, string>)
    requires forall g :: g in groups ==> g.id != newId
    ensures r.Ok? <==> name != "" && !NameTaken(groups, name)
    ensures name == "" ==> r == Err(msg.addEmpty)
    ensures name != "" && NameTaken(groups, name) ==> r == Err(msg.taken)
    ensures r.Ok? ==> r.value == groups + {Group(newId, name, Prompt.BlankOrNull(comment))}
    ensures r.Ok? ==> |r.value| == |groups| + 1
    ensures r.Ok? && GroupsUnique(groups) ==> GroupsUnique(r.value)
  {
    if name == "" then Err(msg.addEmpty)
    else if NameTaken(groups, name) then Err(msg.taken)
    else
      var g := Group(newId, name, Prompt.BlankOrNull(comment));
      InsertGroup(groups, g);
      Ok(groups + {g})
  }

  /** A group with a fresh id and name is one more row and keeps ids and
      names unique. */
  lemma InsertGroup(groups: set<Group>, g: Group)
    requires forall h :: h in groups ==> h.id != g.id
    requires !NameTaken(groups, g.name)
    ensures |groups + {g}| == |groups| + 1
    ensures GroupsUnique(groups) ==> GroupsUnique(groups + {g})
  {
    assert g !in groups;
  }

  /** `update`: the group is found by name; an empty new name keeps the old
      one, any other must not belong to another group; the comment follows the
      tri-state rule. */
  function UpdateGroup(groups: set<Group>, oldName: string, newName: string, comment: string, msg: Messages)
    : (r: Result<set<Group>, string>)
    requires GroupsUnique(groups)
    ensures oldName == "" ==> r == Err(msg.updateEmpty)
    ensures oldName != "" && !NameTaken(groups, oldName) ==> r == Err(msg.notFound)
    ensures r.Ok? <==> oldName != "" && NameTaken(groups, oldName)
                       && (newName == "" || forall g :: g in groups && g.name == oldName ==> !NameTakenByOther(groups, newName, g.id))
    ensures r.Ok? ==> exists prev :: (
      && prev in groups && prev.name == oldName
      && r.value == groups - {prev} + {Group(prev.id, Prompt.KeepIfEmpty(newName, prev.name), Prompt.TriState(comment, prev.comment))})
  {
    if oldName == "" then Err(msg.updateEmpty)
    else if !NameTaken(groups, oldName) then Err(msg.notFound)
    else
      var prev :| prev in groups && prev.name == oldName;
      assert forall g :: g in groups && g.name == oldName ==> g == prev;
      if newName != "" && NameTakenByOther(groups, newName, prev.id) then Err(msg.renameTaken)
      else
        var g := Group(prev.id, Prompt.KeepIfEmpty(newName, prev.name), Prompt.TriState(comment, prev.comment));
        Ok(groups - {prev} + {g})
  }

  /** A successful `update` keeps ids and names unique and the row count. */
  lemma UpdatedGroups(groups: set<Group>, oldName: string, newName: string, comment: string, msg: Messages)
    requires GroupsUnique(groups)
    requires UpdateGroup(groups, oldName, newName, comment, msg).Ok?
    ensures var after := UpdateGroup(groups, oldName, newName, comment, msg).value;
      GroupsUnique(after) && |after| == |groups|
  {
    var prev :| prev in groups && prev.name == oldName;
    assert forall g :: g in groups && g.name == oldName ==> g == prev;
    var g := Group(prev.id, Prompt.KeepIfEmpty(newName, prev.name), Prompt.TriState(comment, prev.comment));
    var rest := groups - {prev};
    assert forall h :: h in rest ==> h.id != prev.id && h.name != g.name;
    assert |rest + {g}| == |rest| + 1;
  }

  /** Answering every question of `update` with <Enter> leaves the table as
      it was. */
  lemma UpdateBlankKeeps(groups: set<Group>, name: string, msg: Messages)
    requires GroupsUnique(groups) && name != "" && NameTaken(groups, name)
    ensures UpdateGroup(groups, name, "", "", msg) == Ok(groups)
  {
    var prev :| prev in groups && prev.name == name;
    assert forall g :: g in groups && g.name == name ==> g == prev;
    assert Group(prev.id, prev.name, prev.comment) == prev;
    assert groups - {prev} + {prev} == groups;
  }

  /** Renaming a group and renaming it back restores the table, the comment
      being kept both times. */
  lemma RenameBack(groups: set<Group>, a: string, b: string, msg: Messages)
    requires GroupsUnique(groups) && a != "" && b != "" && NameTaken(groups, a) && !NameTaken(groups, b)
    ensures UpdateGroup(groups, a, b, "", msg).Ok?
    ensures UpdateGroup(UpdateGroup(groups, a, b, "", msg).value, b, a, "", msg) == Ok(groups)
  {
    var prev :| prev in groups && prev.name == a;
    var moved := Group(prev.id, b, prev.comment);
    UpdateRow(groups, prev, b, "", msg);
    var mid := groups - {prev} + {moved};
    UpdatedGroups(groups, a, b, "", msg);
    assert !NameTakenByOther(mid, a, moved.id);
    UpdateRow(mid, moved, a, "", msg);
    assert mid - {moved} + {prev} == groups;
  }

  /** Updating the row `prev` by its name rewrites exactly that row. */
  lemma UpdateRow(groups: set<Group>, prev: Group, newName: string, comment: string, msg: Messages)
    requires GroupsUnique(groups) && prev in groups && prev.name != ""
    requires newName == "" || !NameTakenByOther(groups, newName, prev.id)
    ensures UpdateGroup(groups, prev.name, newName, comment, msg)
      == Ok(groups - {prev} + {Group(prev.id, Prompt.KeepIfEmpty(newName, prev.name), Prompt.TriState(comment, prev.comment))})
  {
    assert forall g :: g in groups && g.name == prev.name ==> g == prev;
  }
}
